/**
 * The things a PAC buffer is cut into, and the PAC_file object that indexes them by offset.
 * Only the fields the parser writes and the disassembler reads are modelled; how each entity
 * decodes its own bytes belongs to initialisers that are parameters of the parser.
 */
module PacEntities {
  import opened Builtins
  import opened PataponDebugger

  /** A decoded parameter value: an integer, a string, or anything else, kept as its printed form. */
  datatype ParamValue = IntValue(n: int) | StrValue(s: string) | OtherValue(repr: string)

  /** Memory_entity: a raw span of bytes. */
  datatype MemoryEntity = MemoryEntity(rawData: seq<uint8>, size: nat)

  /** Padding_bytes: alignment filler after a string argument. */
  datatype PaddingBytes = PaddingBytes(size: nat, zeroesOnly: bool, machineWordLength: int)

  /** PAC_instruction as decoded from the buffer, with its parameters in declaration order. */
  datatype PacInstruction = PacInstruction(
    signature: int,
    name: string,
    orderedParams: seq<(Param, ParamValue)>,
    cutOff: bool,
    size: nat)

  /** Unknown_PAC_instruction: a span that starts with an unrecognised signature. */
  datatype UnknownInstruction = UnknownInstruction(signature: int, size: nat)

  /** Switch_case_table: the branch addresses that follow an indexed jump. */
  datatype SwitchCaseTable = SwitchCaseTable(size: nat, branches: seq<int>)

  /** PAC_message_table. */
  datatype MessageTable = MessageTable(size: nat, msgCount: nat)

  /** Left_out_PAC_arguments: bytes that may belong to the instruction before them. */
  datatype LeftOutArguments = LeftOutArguments(size: nat, supposedSize: int)

  /** Any value stored in `entities`; `Unlisted` stands for an object of any other type. */
  datatype Entity =
    | Memory(memory: MemoryEntity)
    | Padding(padding: PaddingBytes)
    | Instruction(instruction: PacInstruction)
    | Unknown(unknown: UnknownInstruction)
    | SwitchTable(table: SwitchCaseTable)
    | Messages(messages: MessageTable)
    | LeftOut(arguments: LeftOutArguments)
    | Unlisted(typeName: string)

  /** `m.setdefault(k1, {})[k2] = v` on a dictionary of dictionaries. */
  function Put2<K1, K2, V>(m: map<K1, map<K2, V>>, k1: K1, k2: K2, v: V): (r: map<K1, map<K2, V>>)
    ensures r.Keys == m.Keys + {k1}
    ensures r[k1].Keys == (if k1 in m then m[k1].Keys else {}) + {k2} && r[k1][k2] == v
    ensures forall k :: k in r[k1] && k != k2 ==> r[k1][k] == m[k1][k]
    ensures forall k :: k in m && k != k1 ==> r[k] == m[k]
  {
    var inner := if k1 in m then m[k1] else map[];
    m[k1 := inner[k2 := v]]
  }

  /** PAC_file: the buffer and every index the parser fills. */
  class PacFile {
    const rawData: seq<uint8>
    const size: nat
    var entities: map<nat, Entity>
    var entitiesOffsets: seq<nat>
    var rawEntities: map<nat, MemoryEntity>
    var msgTables: map<nat, MessageTable>
    var leftOutArguments: map<nat, LeftOutArguments>
    var paddingBytes: map<nat, PaddingBytes>
    var switchCaseTables: map<nat, SwitchCaseTable>
    var instructions: map<int, map<nat, PacInstruction>>
    var orderedInstructions: map<nat, PacInstruction>
    var cutInstructions: map<nat, PacInstruction>
    var cutInstructionsCount: nat
    var unknownInstructions: map<int, map<nat, UnknownInstruction>>
    var unknownInstructionsCount: nat

    /** `size` is the buffer length, and every listed offset has an entity. */
    ghost predicate Valid()
      reads this
    {
      && size == |rawData|
      && forall offset :: offset in entitiesOffsets ==> offset in entities
    }

    /** A file holding `raw` with every index empty. */
    constructor (raw: seq<uint8>)
      ensures Valid()
      ensures rawData == raw && size == |raw|
      ensures entities == map[] && entitiesOffsets == []
      ensures rawEntities == map[] && msgTables == map[] && leftOutArguments == map[]
      ensures paddingBytes == map[] && switchCaseTables == map[]
      ensures instructions == map[] && orderedInstructions == map[] && cutInstructions == map[]
      ensures unknownInstructions == map[]
      ensures cutInstructionsCount == 0 && unknownInstructionsCount == 0
    {
      rawData := raw;
      size := |raw|;
      entities := map[];
      entitiesOffsets := [];
      rawEntities := map[];
      msgTables := map[];
      leftOutArguments := map[];
      paddingBytes := map[];
      switchCaseTables := map[];
      instructions := map[];
      orderedInstructions := map[];
      cutInstructions := map[];
      cutInstructionsCount := 0;
      unknownInstructions := map[];
      unknownInstructionsCount := 0;
    }
  }
}
