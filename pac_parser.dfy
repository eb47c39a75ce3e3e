/**
 * PAC_parser: one pass over a PAC buffer with a cursor (`curOffset`) and a flush mark
 * (`lastOffset`). It finds candidate instruction starts (a `%` byte whose little-endian word
 * is accepted), turns each gap before a candidate into a raw entity, and records known and
 * unknown instructions, padding after string arguments and the table after an indexed jump.
 *
 * Everything the shown code only calls (the argument decoder, the message-table and
 * left-out-arguments tests, the default heuristic, the entity initialisers) is a parameter,
 * gathered in `Collaborators`.
 */
module PacParser {
  import opened Wrappers
  import opened Builtins
  import opened PataponDebugger
  import opened PacEntities

  /** PAC_instruction_template: the declared parameters of a known opcode, in order. */
  datatype Template = Template(name: string, params: seq<Param>)

  /** `template.PAC_params and template.PAC_params[-1].type == "string"`. */
  predicate EndsWithString(t: Template)
  {
    |t.params| > 0 && t.params[|t.params| - 1].paramType == "string"
  }

  /** The routines the parser relies on but whose code is not part of this model. */
  datatype Collaborators = Collaborators(
    defaultMayBeInstruction: int -> bool,
    isMsgTable: seq<uint8> -> bool,
    isLeftOutArgs: seq<uint8> -> bool,
    decodeInstruction: (seq<uint8>, nat, Template) -> PacInstruction,
    newMessageTable: seq<uint8> -> MessageTable,
    newLeftOutArguments: (seq<uint8>, int) -> LeftOutArguments,
    newMemoryEntity: seq<uint8> -> MemoryEntity,
    newUnknownInstruction: seq<uint8> -> UnknownInstruction,
    newPaddingBytes: (int, seq<uint8>) -> PaddingBytes,
    newSwitchCaseTable: seq<uint8> -> SwitchCaseTable)

  /** The one assumption about the decoder: an instruction at a 4-byte word is non-empty and ends inside the buffer. */
  ghost predicate DecoderStaysInside(decode: (seq<uint8>, nat, Template) -> PacInstruction)
  {
    forall raw: seq<uint8>, at: nat, t: Template ::
      at + 4 <= |raw| ==> 0 < decode(raw, at, t).size && at + decode(raw, at, t).size <= |raw|
  }

  /**
   * The switches a caller may set on a parser: whether the word after an indexed jump starts a
   * switch-case table, the signature of that jump, whether unknown instructions are searched
   * for, and the heuristic that accepts a word as the start of one.
   */
  datatype Settings = Settings(
    jumpTableNextToSwitch: bool,
    cmdInxJmpSignature: int,
    findUnknownInstructions: bool,
    instructionHeuristic: int -> bool)

  /** The settings `__init__` gives a new parser. */
  function DefaultSettings(lib: Collaborators): (s: Settings)
    ensures s.jumpTableNextToSwitch && s.cmdInxJmpSignature == 0 && s.findUnknownInstructions
    ensures s.instructionHeuristic == lib.defaultMayBeInstruction
  {
    Settings(true, 0x0, true, lib.defaultMayBeInstruction)
  }

  /** `parse` refuses a file without data. */
  datatype ParseError = EmptyRawData

  // ------------------------------------------------------------ the scan

  /** What findNextInstruction looks at: the buffer and the acceptance settings. */
  datatype Scan = Scan(
    raw: seq<uint8>,
    findUnknownInstructions: bool,
    mayBeInstruction: int -> bool,
    templateSignatures: set<int>)

  /** The signed little-endian word at `at` passes the heuristic, or is a known signature when unknown instructions are not wanted. */
  predicate Accepts(s: Scan, at: nat)
    requires at + 4 <= |s.raw|
  {
    var w := UnpackInt32LE(s.raw, at);
    if s.findUnknownInstructions then s.mayBeInstruction(w) else w in s.templateSignatures
  }

  /** An acceptable instruction start: a `%` with a whole word from it, and that word accepted. */
  predicate IsCandidate(s: Scan, at: nat)
  {
    at + 3 < |s.raw| && s.raw[at] == 0x25 && Accepts(s, at)
  }

  /** A position where the scan ends: past the data, a `%` too close to the end, or a candidate. */
  predicate StopsAt(s: Scan, p: nat)
  {
    p >= |s.raw| || (s.raw[p] == 0x25 && (p + 3 >= |s.raw| || Accepts(s, p)))
  }

  /** Where a scan starting at `from` ends: the first stopping position at or after it. */
  function NextStop(s: Scan, from: nat): (p: nat)
    decreases |s.raw| - from
    ensures from <= p && StopsAt(s, p)
    ensures forall q :: from <= q < p ==> !StopsAt(s, q)
  {
    if StopsAt(s, from) then from else NextStop(s, from + 1)
  }

  /** The scan ends on a candidate exactly when the buffer holds one at or after the start. */
  lemma NextStopFindsCandidate(s: Scan, from: nat)
    ensures IsCandidate(s, NextStop(s, from)) <==> NextStop(s, from) + 3 < |s.raw|
    ensures NextStop(s, from) + 3 < |s.raw| <==> exists p :: from <= p && IsCandidate(s, p)
  {
    var r := NextStop(s, from);
    if exists p :: from <= p && IsCandidate(s, p) {
      var p :| from <= p && IsCandidate(s, p);
      assert StopsAt(s, p);
      assert r <= p;
    }
    if r + 3 < |s.raw| {
      assert IsCandidate(s, r);
    }
  }

  /** Every position the scan passes over is not a `%`, or its word was rejected. */
  lemma SkippedPositionsRejected(s: Scan, from: nat, q: nat)
    requires from <= q < NextStop(s, from)
    ensures q < |s.raw|
    ensures s.raw[q] != 0x25 || (q + 3 < |s.raw| && !Accepts(s, q))
  {
    assert !StopsAt(s, q);
  }

  /** Scanning again from where a scan stopped stays put. */
  lemma NextStopIdempotent(s: Scan, from: nat)
    ensures NextStop(s, NextStop(s, from)) == NextStop(s, from)
  {
  }

  /** Read little-endian, every accepted signature has 0x25 as its low byte. */
  lemma CandidateSignatureLowByte(s: Scan, at: nat)
    requires IsCandidate(s, at)
    ensures UnpackInt32LE(s.raw, at) % 0x100 == 0x25
  {
    LowByte(s.raw, at);
  }

  // ------------------------------------------------------------ the parser

  class PacParser {
    const lib: Collaborators
    var templates: map<int, Template>
    const jumpTableNextToSwitch: bool
    const cmdInxJmpSignature: int
    const findUnknownInstructions: bool
    var pacSignatureToName: map<int, string>
    const instructionHeuristic: int -> bool
    const file: PacFile
    var curOffset: nat
    var lastOffset: nat
    var lastWasInstruction: bool
    var curSignature: int

    /**
     * The decoder assumption, a consistent file, and the flag's precondition for the
     * left-out-arguments branch (the flag is never raised, so this holds throughout).
     */
    ghost predicate Valid()
      reads this, file
    {
      && DecoderStaysInside(lib.decodeInstruction)
      && file.Valid()
      && (lastWasInstruction ==> |file.entitiesOffsets| > 0)
    }

    /**
     * A new parser with no templates, the cursor and the mark at 0; the file to parse and the
     * settings are given here rather than assigned later (`DefaultSettings` are those of `__init__`).
     */
    constructor (lib: Collaborators, file: PacFile, settings: Settings)
      requires DecoderStaysInside(lib.decodeInstruction) && file.Valid()
      ensures Valid()
      ensures this.lib == lib && this.file == file
      ensures templates == map[] && pacSignatureToName == map[]
      ensures jumpTableNextToSwitch == settings.jumpTableNextToSwitch
      ensures cmdInxJmpSignature == settings.cmdInxJmpSignature
      ensures findUnknownInstructions == settings.findUnknownInstructions
      ensures instructionHeuristic == settings.instructionHeuristic
      ensures curOffset == 0 && lastOffset == 0 && !lastWasInstruction && curSignature == 0
    {
      this.lib := lib;
      templates := map[];
      jumpTableNextToSwitch := settings.jumpTableNextToSwitch;
      cmdInxJmpSignature := settings.cmdInxJmpSignature;
      findUnknownInstructions := settings.findUnknownInstructions;
      pacSignatureToName := map[];
      instructionHeuristic := settings.instructionHeuristic;
      this.file := file;
      curOffset := 0;
      lastOffset := 0;
      lastWasInstruction := false;
      curSignature := 0;
    }

    /** `mayBeInstruction`: the parser's heuristic applied to a signature. */
    function MayBeInstruction(signature: int): bool
    {
      instructionHeuristic(signature)
    }

    /** `acceptTemplates`: replaces the known templates. */
    method AcceptTemplates(templates: map<int, Template>)
      requires Valid()
      modifies this`templates
      ensures Valid()
      ensures this.templates == templates
    {
      this.templates := templates;
    }

    /** The scan the current settings describe. */
    function ScanOf(): Scan
      reads this`templates
    {
      Scan(file.rawData, findUnknownInstructions, instructionHeuristic, templates.Keys)
    }

    /** The test the scan applies to a word: the heuristic when unknown instructions are wanted, a known signature otherwise. */
    lemma AcceptanceRule(at: nat)
      requires at + 4 <= |file.rawData|
      ensures Accepts(ScanOf(), at) <==>
        if findUnknownInstructions then MayBeInstruction(UnpackInt32LE(file.rawData, at))
        else UnpackInt32LE(file.rawData, at) in templates
    {
    }

    /** `findNextInstruction`: moves the cursor to the first stopping position; true when that is a candidate. */
    method FindNextInstruction() returns (found: bool)
      requires Valid()
      modifies this`curOffset
      ensures Valid()
      ensures curOffset == NextStop(ScanOf(), old(curOffset))
      ensures found <==> curOffset + 3 < file.size
      ensures found ==> IsCandidate(ScanOf(), curOffset)
    {
      ghost var s := ScanOf();
      ghost var target := NextStop(s, curOffset);
      while true
        invariant curOffset <= target && NextStop(s, curOffset) == target
        decreases file.size - curOffset
      {
        while curOffset < file.size && file.rawData[curOffset] != 0x25
          invariant curOffset <= target && NextStop(s, curOffset) == target
          decreases file.size - curOffset
        {
          curOffset := curOffset + 1;
        }
        if curOffset + 3 < file.size {
          var signature := UnpackInt32LE(file.rawData, curOffset);
          if findUnknownInstructions {
            if MayBeInstruction(signature) {
              return true;
            }
            curOffset := curOffset + 1;
          } else {
            if signature in templates {
              return true;
            }
            curOffset := curOffset + 1;
          }
        } else {
          return false;
        }
      }
    }

    /** `processMessageTable`: records a message table at the flush mark. */
    method ProcessMessageTable(raw: seq<uint8>)
      requires Valid()
      modifies file`msgTables, file`entities
      ensures Valid()
      ensures file.msgTables == old(file.msgTables)[lastOffset := lib.newMessageTable(raw)]
      ensures file.entities == old(file.entities)[lastOffset := Messages(lib.newMessageTable(raw))]
    {
      var msgTable := lib.newMessageTable(raw);
      file.msgTables := file.msgTables[lastOffset := msgTable];
      file.entities := file.entities[lastOffset := Messages(msgTable)];
    }

    /** `processLeftOutArgs`: the arguments run from the last listed entity to the end of the buffer. */
    method ProcessLeftOutArgs(raw: seq<uint8>)
      requires Valid() && |file.entitiesOffsets| > 0
      modifies file`leftOutArguments, file`entities
      ensures Valid()
      ensures var instrOffset := file.entitiesOffsets[|file.entitiesOffsets| - 1];
        var args := lib.newLeftOutArguments(PySlice(file.rawData, instrOffset, file.size), lastOffset - instrOffset);
        && file.leftOutArguments == old(file.leftOutArguments)[lastOffset := args]
        && file.entities == old(file.entities)[lastOffset := LeftOut(args)]
    {
      var instrOffset := file.entitiesOffsets[|file.entitiesOffsets| - 1];
      var args := lib.newLeftOutArguments(PySlice(file.rawData, instrOffset, file.size), lastOffset - instrOffset);
      file.leftOutArguments := file.leftOutArguments[lastOffset := args];
      file.entities := file.entities[lastOffset := LeftOut(args)];
    }

    /** `processMemoryEntity`: records a raw span at the flush mark. */
    method ProcessMemoryEntity(raw: seq<uint8>)
      requires Valid()
      modifies file`rawEntities, file`entities
      ensures Valid()
      ensures file.rawEntities == old(file.rawEntities)[lastOffset := lib.newMemoryEntity(raw)]
      ensures file.entities == old(file.entities)[lastOffset := Memory(lib.newMemoryEntity(raw))]
    {
      var entity := lib.newMemoryEntity(raw);
      file.rawEntities := file.rawEntities[lastOffset := entity];
      file.entities := file.entities[lastOffset := Memory(entity)];
    }

    /**
     * `processRawData`: unless the cursor is at the flush mark, records the bytes between them
     * as one entity (a message table first, then left-out arguments after an instruction, else
     * a memory entity), lists it and moves the mark to the cursor.
     */
    method ProcessRawData()
      requires Valid()
      modifies this`lastOffset, this`lastWasInstruction, file`entities, file`entitiesOffsets,
        file`rawEntities, file`msgTables, file`leftOutArguments
      ensures Valid()
      ensures old(file.entitiesOffsets) <= file.entitiesOffsets
      ensures old(curOffset == lastOffset) ==> unchanged(this) && unchanged(file)
      ensures old(curOffset != lastOffset) ==>
        && lastOffset == curOffset && !lastWasInstruction
        && file.entitiesOffsets == old(file.entitiesOffsets) + [old(lastOffset)]
      ensures var raw := PySlice(file.rawData, old(lastOffset), curOffset);
        old(curOffset != lastOffset) && lib.isMsgTable(raw) ==>
          && file.msgTables == old(file.msgTables)[old(lastOffset) := lib.newMessageTable(raw)]
          && file.entities == old(file.entities)[old(lastOffset) := Messages(lib.newMessageTable(raw))]
          && file.leftOutArguments == old(file.leftOutArguments) && file.rawEntities == old(file.rawEntities)
      ensures var raw := PySlice(file.rawData, old(lastOffset), curOffset);
        var offsets := old(file.entitiesOffsets);
        old(curOffset != lastOffset && lastWasInstruction) && !lib.isMsgTable(raw) && lib.isLeftOutArgs(raw) ==>
          var instrOffset := offsets[|offsets| - 1];
          var args := lib.newLeftOutArguments(PySlice(file.rawData, instrOffset, file.size), old(lastOffset) - instrOffset);
          && file.leftOutArguments == old(file.leftOutArguments)[old(lastOffset) := args]
          && file.entities == old(file.entities)[old(lastOffset) := LeftOut(args)]
          && file.msgTables == old(file.msgTables) && file.rawEntities == old(file.rawEntities)
      ensures var raw := PySlice(file.rawData, old(lastOffset), curOffset);
        old(curOffset != lastOffset) && !lib.isMsgTable(raw) && !(old(lastWasInstruction) && lib.isLeftOutArgs(raw)) ==>
          && file.rawEntities == old(file.rawEntities)[old(lastOffset) := lib.newMemoryEntity(raw)]
          && file.entities == old(file.entities)[old(lastOffset) := Memory(lib.newMemoryEntity(raw))]
          && file.msgTables == old(file.msgTables) && file.leftOutArguments == old(file.leftOutArguments)
    {
      if curOffset == lastOffset {
        return;
      }
      var raw := PySlice(file.rawData, lastOffset, curOffset);
      if lib.isMsgTable(raw) {
        ProcessMessageTable(raw);
      } else if lastWasInstruction && lib.isLeftOutArgs(raw) {
        ProcessLeftOutArgs(raw);
      } else {
        ProcessMemoryEntity(raw);
      }
      file.entitiesOffsets := file.entitiesOffsets + [lastOffset];
      lastOffset := curOffset;
      lastWasInstruction := false;
    }

    /** The instruction the decoder reads at `at` with `template`. */
    function InstructionAt(template: Template, at: nat): PacInstruction
    {
      lib.decodeInstruction(file.rawData, at, template)
    }

    /**
     * The first part of processInstruction: lists the cursor, decodes the instruction there,
     * records it in every instruction index (and among the cut ones when it is cut off) and
     * moves the cursor past it.
     */
    method RecordInstruction() returns (instruction: PacInstruction)
      requires Valid() && curSignature in templates && curOffset + 4 <= file.size
      modifies this`curOffset, file`entitiesOffsets, file`instructions, file`entities, file`orderedInstructions,
        file`cutInstructions, file`cutInstructionsCount
      ensures Valid()
      ensures instruction == InstructionAt(templates[curSignature], old(curOffset))
      ensures old(curOffset) < curOffset == old(curOffset) + instruction.size <= file.size
      ensures file.entitiesOffsets == old(file.entitiesOffsets) + [old(curOffset)]
      ensures file.instructions == Put2(old(file.instructions), curSignature, old(curOffset), instruction)
      ensures file.entities == old(file.entities)[old(curOffset) := Instruction(instruction)]
      ensures file.orderedInstructions == old(file.orderedInstructions)[old(curOffset) := instruction]
      ensures file.cutInstructions ==
        if instruction.cutOff then old(file.cutInstructions)[old(curOffset) := instruction] else old(file.cutInstructions)
      ensures file.cutInstructionsCount == old(file.cutInstructionsCount) + if instruction.cutOff then 1 else 0
    {
      file.entitiesOffsets := file.entitiesOffsets + [curOffset];
      var template := templates[curSignature];
      instruction := lib.decodeInstruction(file.rawData, curOffset, template);

      file.instructions := Put2(file.instructions, curSignature, curOffset, instruction);
      file.entities := file.entities[curOffset := Instruction(instruction)];
      file.orderedInstructions := file.orderedInstructions[curOffset := instruction];

      if instruction.cutOff {
        file.cutInstructions := file.cutInstructions[curOffset := instruction];
        file.cutInstructionsCount := file.cutInstructionsCount + 1;
      }

      curOffset := curOffset + instruction.size;
    }

    /** Whether the current signature is the indexed jump whose table is taken. */
    predicate TakesJumpTable()
      reads this`curSignature
    {
      jumpTableNextToSwitch && curSignature == cmdInxJmpSignature
    }

    /**
     * The middle part of processInstruction: after the indexed jump, the cursor moves to the
     * next stopping position and the bytes from the flush mark to there become a switch-case table.
     */
    method TakeJumpTable()
      requires Valid()
      modifies this`curOffset, file`entitiesOffsets, file`entities, file`switchCaseTables
      ensures Valid()
      ensures curOffset == if TakesJumpTable() then NextStop(ScanOf(), old(curOffset)) else old(curOffset)
      ensures var hasTable := TakesJumpTable() && curOffset != lastOffset;
        && file.entitiesOffsets == old(file.entitiesOffsets) + (if hasTable then [lastOffset] else [])
        && file.entities == (if hasTable then old(file.entities)[lastOffset := SwitchTable(TableBetween(lastOffset, curOffset))]
                             else old(file.entities))
        && file.switchCaseTables == (if hasTable then old(file.switchCaseTables)[lastOffset := TableBetween(lastOffset, curOffset)]
                                     else old(file.switchCaseTables))
    {
      if jumpTableNextToSwitch && curSignature == cmdInxJmpSignature {
        var res := FindNextInstruction();
        ProcessAddressTable();
      }
    }

    /** Where the cursor is after the jump-table step, when it was at `end`. */
    function AfterJump(end: nat): nat
      reads this`curSignature, this`templates
    {
      if TakesJumpTable() then NextStop(ScanOf(), end) else end
    }

    /**
     * The rest of processInstruction once the instruction is recorded: the jump-table step, then
     * the alignment when the template ends with a string parameter.
     */
    method FinishInstruction(endsWithString: bool)
      requires Valid()
      modifies this`curOffset, file`entitiesOffsets, file`entities, file`switchCaseTables, file`paddingBytes
      ensures Valid()
      ensures
        var afterJump := AfterJump(old(curOffset));
        var hasTable := TakesJumpTable() && afterJump != lastOffset;
        var pad := endsWithString && afterJump % 4 != 0;
        var withTable := if hasTable then old(file.entities)[lastOffset := SwitchTable(TableBetween(lastOffset, afterJump))]
                         else old(file.entities);
        && curOffset == (if pad then afterJump + (4 - afterJump % 4) else afterJump)
        && file.entitiesOffsets == old(file.entitiesOffsets) + (if hasTable then [lastOffset] else [])
             + (if pad then [afterJump] else [])
        && file.switchCaseTables == (if hasTable then old(file.switchCaseTables)[lastOffset := TableBetween(lastOffset, afterJump)]
                                     else old(file.switchCaseTables))
        && file.paddingBytes == (if pad then old(file.paddingBytes)[afterJump := PaddingAt(afterJump)] else old(file.paddingBytes))
        && file.entities == (if pad then withTable[afterJump := Padding(PaddingAt(afterJump))] else withTable)
      ensures old(curOffset) <= curOffset
    {
      TakeJumpTable();
      if endsWithString {
        FixAlignment();
      }
    }

    /**
     * `processInstruction`: records the instruction at the cursor and moves past it, takes the
     * switch-case table after an indexed jump, and pads after a trailing string parameter.
     * The flush mark is not moved.
     */
    method ProcessInstruction()
      requires Valid() && curSignature in templates && curOffset + 4 <= file.size
      modifies this`curOffset, file`entitiesOffsets, file`instructions, file`entities, file`orderedInstructions,
        file`cutInstructions, file`cutInstructionsCount, file`switchCaseTables, file`paddingBytes
      ensures Valid()
      ensures old(curOffset) < curOffset && old(file.entitiesOffsets) <= file.entitiesOffsets
      ensures old(file.cutInstructionsCount) <= file.cutInstructionsCount
      ensures
        var start := old(curOffset);
        var instruction := InstructionAt(templates[curSignature], start);
        && start < start + instruction.size <= file.size
        && file.instructions == Put2(old(file.instructions), curSignature, start, instruction)
        && file.orderedInstructions == old(file.orderedInstructions)[start := instruction]
        && file.cutInstructions == (if instruction.cutOff then old(file.cutInstructions)[start := instruction]
                                    else old(file.cutInstructions))
        && file.cutInstructionsCount == old(file.cutInstructionsCount) + (if instruction.cutOff then 1 else 0)
      ensures
        var start := old(curOffset);
        var afterJump := AfterJump(start + InstructionAt(templates[curSignature], start).size);
        var hasTable := TakesJumpTable() && afterJump != lastOffset;
        var pad := EndsWithString(templates[curSignature]) && afterJump % 4 != 0;
        && curOffset == (if pad then afterJump + (4 - afterJump % 4) else afterJump)
        && file.entitiesOffsets == old(file.entitiesOffsets) + [start]
             + (if hasTable then [lastOffset] else []) + (if pad then [afterJump] else [])
        && file.switchCaseTables == (if hasTable then old(file.switchCaseTables)[lastOffset := TableBetween(lastOffset, afterJump)]
                                     else old(file.switchCaseTables))
        && file.paddingBytes == (if pad then old(file.paddingBytes)[afterJump := PaddingAt(afterJump)] else old(file.paddingBytes))
      ensures
        var start := old(curOffset);
        var instruction := InstructionAt(templates[curSignature], start);
        var afterJump := AfterJump(start + instruction.size);
        var hasTable := TakesJumpTable() && afterJump != lastOffset;
        var pad := EndsWithString(templates[curSignature]) && afterJump % 4 != 0;
        var withInstruction := old(file.entities)[start := Instruction(instruction)];
        var withTable := if hasTable then withInstruction[lastOffset := SwitchTable(TableBetween(lastOffset, afterJump))]
                         else withInstruction;
        file.entities == (if pad then withTable[afterJump := Padding(PaddingAt(afterJump))] else withTable)
    {
      var template := templates[curSignature];
      ghost var start := curOffset;
      var instruction := RecordInstruction();
      ghost var end := curOffset;
      FinishInstruction(EndsWithString(template));
      assert end == start + instruction.size;
    }

    /**
     * `processUnknownInstruction`: the unknown instruction runs from the flush mark to the next
     * candidate after its first word, or to the end of the buffer; it is recorded but not listed.
     */
    method ProcessUnknownInstruction()
      requires Valid()
      modifies this`curOffset, file`unknownInstructions, file`entities, file`unknownInstructionsCount
      ensures Valid()
      ensures var stop := NextStop(ScanOf(), old(curOffset) + 4);
        var unknown := lib.newUnknownInstruction(PySlice(file.rawData, lastOffset, curOffset));
        && curOffset == (if stop + 3 < file.size then stop else file.size)
        && file.unknownInstructions == Put2(old(file.unknownInstructions), curSignature, lastOffset, unknown)
        && file.entities == old(file.entities)[lastOffset := Unknown(unknown)]
        && file.unknownInstructionsCount == old(file.unknownInstructionsCount) + 1
      ensures old(curOffset) + 4 <= file.size ==> old(curOffset) + 4 <= curOffset <= file.size
    {
      curOffset := curOffset + 4;
      var res := FindNextInstruction();
      if !res {
        curOffset := file.size;
      }
      var raw := PySlice(file.rawData, lastOffset, curOffset);
      var unknownInstruction := lib.newUnknownInstruction(raw);
      file.unknownInstructions := Put2(file.unknownInstructions, curSignature, lastOffset, unknownInstruction);
      file.entities := file.entities[lastOffset := Unknown(unknownInstruction)];
      file.unknownInstructionsCount := file.unknownInstructionsCount + 1;
    }

    /** The padding fixAlignment records at an unaligned `at`: the bytes up to the next multiple of 4. */
    function PaddingAt(at: nat): PaddingBytes
    {
      lib.newPaddingBytes(4, PySlice(file.rawData, at, at + (4 - at % 4)))
    }

    /** `fixAlignment`: pads an unaligned cursor up to the next multiple of 4 and lists the padding. */
    method FixAlignment()
      requires Valid()
      modifies this`curOffset, file`paddingBytes, file`entities, file`entitiesOffsets
      ensures Valid()
      ensures curOffset % 4 == 0 && old(curOffset) <= curOffset < old(curOffset) + 4
      ensures old(curOffset) % 4 == 0 ==> curOffset == old(curOffset) && unchanged(file)
      ensures old(curOffset) % 4 != 0 ==>
        var at := old(curOffset);
        && curOffset == at + (4 - at % 4)
        && file.paddingBytes == old(file.paddingBytes)[at := PaddingAt(at)]
        && file.entities == old(file.entities)[at := Padding(PaddingAt(at))]
        && file.entitiesOffsets == old(file.entitiesOffsets) + [at]
    {
      if curOffset % 4 != 0 {
        var paddingBytesLength := 4 - curOffset % 4;
        var paddingRaw := PySlice(file.rawData, curOffset, curOffset + paddingBytesLength);
        var padding := lib.newPaddingBytes(4, paddingRaw);
        file.paddingBytes := file.paddingBytes[curOffset := padding];
        file.entities := file.entities[curOffset := Padding(padding)];
        file.entitiesOffsets := file.entitiesOffsets + [curOffset];
        curOffset := curOffset + paddingBytesLength;
      }
    }

    /** The switch-case table processAddressTable builds from the bytes in `[from, to)`. */
    function TableBetween(from: nat, to: nat): SwitchCaseTable
    {
      lib.newSwitchCaseTable(PySlice(file.rawData, from, to))
    }

    /** `processAddressTable`: records the bytes from the flush mark to the cursor as a switch-case table. */
    method ProcessAddressTable()
      requires Valid()
      modifies file`entitiesOffsets, file`entities, file`switchCaseTables
      ensures Valid()
      ensures curOffset == lastOffset ==> unchanged(file)
      ensures curOffset != lastOffset ==>
        && file.entitiesOffsets == old(file.entitiesOffsets) + [lastOffset]
        && file.entities == old(file.entities)[lastOffset := SwitchTable(TableBetween(lastOffset, curOffset))]
        && file.switchCaseTables == old(file.switchCaseTables)[lastOffset := TableBetween(lastOffset, curOffset)]
    {
      if curOffset == lastOffset {
        return;
      }
      var raw := PySlice(file.rawData, lastOffset, curOffset);
      var table := lib.newSwitchCaseTable(raw);
      file.entitiesOffsets := file.entitiesOffsets + [lastOffset];
      file.entities := file.entities[lastOffset := SwitchTable(table)];
      file.switchCaseTables := file.switchCaseTables[lastOffset := table];
    }

    /**
     * One round of parse's loop: find the next candidate, flush the gap before it and process
     * the instruction there, or, when none is left, flush the rest of the buffer. The round
     * moves the cursor forward, only appends to the offset list and never lowers a counter.
     */
    method ParseRound()
      requires Valid() && curOffset < file.size
      modifies this`curOffset, this`lastOffset, this`lastWasInstruction, this`curSignature, file
      ensures Valid()
      ensures old(curOffset) < curOffset
      ensures old(file.entitiesOffsets) <= file.entitiesOffsets
      ensures old(file.cutInstructionsCount) <= file.cutInstructionsCount
      ensures old(file.unknownInstructionsCount) <= file.unknownInstructionsCount
    {
      var res := FindNextInstruction();
      if res {
        ProcessRawData();
        var signature := UnpackInt32LE(file.rawData, curOffset);
        curSignature := signature;
        if signature in templates {
          ProcessInstruction();
        } else {
          ProcessUnknownInstruction();
        }
      } else {
        curOffset := file.size;
        ProcessRawData();
      }
    }

    /**
     * `parse`: fails on an empty buffer; otherwise runs rounds until the cursor reaches the end.
     */
    method Parse() returns (err: Option<ParseError>)
      requires Valid()
      modifies this`curOffset, this`lastOffset, this`lastWasInstruction, this`curSignature, file
      ensures Valid()
      ensures err.Some? <==> |file.rawData| == 0
      ensures err.Some? ==> unchanged(this) && unchanged(file)
      ensures err.None? ==> curOffset >= file.size
      ensures old(file.entitiesOffsets) <= file.entitiesOffsets
      ensures old(file.cutInstructionsCount) <= file.cutInstructionsCount
      ensures old(file.unknownInstructionsCount) <= file.unknownInstructionsCount
    {
      if file.rawData == [] {
        return Some(EmptyRawData);
      }
      while curOffset < file.size
        invariant Valid()
        invariant old(file.entitiesOffsets) <= file.entitiesOffsets
        invariant old(file.cutInstructionsCount) <= file.cutInstructionsCount
        invariant old(file.unknownInstructionsCount) <= file.unknownInstructionsCount
        decreases file.size - curOffset
      {
        ParseRound();
      }
      return None;
    }
  }
}
