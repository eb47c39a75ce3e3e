/**
 * disassemble_to_file: one line per listed offset, the offset as zero-padded upper-case hex,
 * then a description of the entity there. The output file is modelled as the lines written,
 * the last one left unterminated when an exception stops the listing.
 */
module PacDisassembler {
  import opened Wrappers
  import opened Builtins
  import opened PataponDebugger
  import opened PacEntities

  /** The exceptions that stop a listing: a listed offset without entity, a switch-case table without branches. */
  datatype Fault = MissingEntity(offset: nat) | NoBranches(offset: nat)

  /** What the output file holds when disassembly ends, and the fault that ended it early. */
  datatype Listing = Listing(lines: seq<string>, fault: Option<Fault>)

  /** The description of one entity and whether its writing ran to the end. */
  datatype Body = Body(text: string, complete: bool)

  /** The shift-jis decoder of a memory entity's bytes (start, length); None when it raises. */
  type ShiftJisReader = (seq<uint8>, nat, nat) -> Option<string>

  const CutOffWarning: string := " [Warning, instruction unexpectedly ends!]"

  // ------------------------------------------------------------ one line

  /** The start of every line: `f"{offset:08X}  "`. */
  function OffsetPrefix(offset: nat): string
  {
    Hex8(offset) + "  "
  }

  /** An argument value: integers in upper-case hex, strings quoted with their NULs removed. */
  function ValueText(v: ParamValue): string
  {
    match v
    case IntValue(n) => SignedHex(n)
    case StrValue(s) => "\"" + Without(s, '\0') + "\""
    case OtherValue(repr) => repr
  }

  /** `{type; name}=value`. */
  function ParamText(p: (Param, ParamValue)): string
  {
    "{" + p.0.paramType + "; " + p.0.name + "}=" + ValueText(p.1)
  }

  function ParamTexts(params: seq<(Param, ParamValue)>): (texts: seq<string>)
    ensures |texts| == |params|
  {
    seq(|params|, i requires 0 <= i < |params| => ParamText(params[i]))
  }

  /** The argument list: every argument, separated by `", "`. */
  function ParamsText(params: seq<(Param, ParamValue)>): string
  {
    Join(ParamTexts(params), ", ")
  }

  /** `SIG:name(arguments)`, then the warning when the instruction is cut off. */
  function InstructionText(instruction: PacInstruction): string
  {
    SignedHex(instruction.signature) + ":" + instruction.name + "(" + ParamsText(instruction.orderedParams) + ")"
      + if instruction.cutOff then CutOffWarning else ""
  }

  function BranchTexts(branches: seq<int>): (texts: seq<string>)
    ensures |texts| == |branches|
  {
    seq(|branches|, i requires 0 <= i < |branches| => SignedHex(branches[i]))
  }

  /** What is written for a switch-case table before its first address. */
  function TableHeader(table: SwitchCaseTable): string
  {
    "Switch-case table: size = " + Decimal(table.size) + " bytes, branches count = " + Decimal(|table.branches|)
      + ", addresses: ("
  }

  /** The `Memory_entity` branch of `disassemble_to_file`: the size and, when the decoder succeeds, the shift-jis text. */
  function MemoryText(m: MemoryEntity, readShiftJis: ShiftJisReader): string
  {
    var sizeText := "Memory entity: size = " + Decimal(m.size) + " bytes";
    match readShiftJis(m.rawData, 0, m.size)
    case Some(text) => sizeText + ", shift-jis = (" + text + ")"
    case None => sizeText
  }

  function PaddingText(p: PaddingBytes): string
  {
    "Padding bytes: count = " + Decimal(p.size) + ", all zeroes = " + PyBool(p.zeroesOnly)
      + ", machine word length = " + SignedDecimal(p.machineWordLength)
  }

  function UnknownText(u: UnknownInstruction): string
  {
    SignedHex(u.signature) + "(Unknown): size = " + Decimal(u.size)
  }

  /** The header, then the addresses separated by `", "` and `)`; the header alone when there are none. */
  function TableBody(t: SwitchCaseTable): Body
  {
    if |t.branches| == 0 then Body(TableHeader(t), false)
    else Body(TableHeader(t) + Join(BranchTexts(t.branches), ", ") + ")", true)
  }

  function MessagesText(t: MessageTable): string
  {
    "Message table: size = " + Decimal(t.size) + " bytes, message count = " + Decimal(t.msgCount)
  }

  function LeftOutText(a: LeftOutArguments): string
  {
    "Potential left out PAC args: size = " + Decimal(a.size)
      + " bytes, supposed full size of the instruction = " + SignedDecimal(a.supposedSize)
  }

  /** The text written after the offset for one entity, chosen by its exact type. */
  function EntityText(entity: Entity, readShiftJis: ShiftJisReader): (b: Body)
    ensures b.complete <==> !(entity.SwitchTable? && |entity.table.branches| == 0)
  {
    match entity
    case Memory(m) => Body(MemoryText(m, readShiftJis), true)
    case Padding(p) => Body(PaddingText(p), true)
    case Instruction(i) => Body(InstructionText(i), true)
    case Unknown(u) => Body(UnknownText(u), true)
    case SwitchTable(t) => TableBody(t)
    case Messages(t) => Body(MessagesText(t), true)
    case LeftOut(a) => Body(LeftOutText(a), true)
    case Unlisted(_) => Body("", true)
  }

  // ------------------------------------------------------------ the listing

  /**
   * The listing of `offsets` when `describe` gives each entity's text: a terminated line per
   * offset until an entity is missing or its text cannot be completed.
   */
  function ListingOf(offsets: seq<nat>, entities: map<nat, Entity>, describe: Entity -> Body): Listing
  {
    if |offsets| == 0 then Listing([], None)
    else
      var offset := offsets[0];
      if offset !in entities then Listing([OffsetPrefix(offset)], Some(MissingEntity(offset)))
      else
        var body := describe(entities[offset]);
        if !body.complete then Listing([OffsetPrefix(offset) + body.text], Some(NoBranches(offset)))
        else
          var rest := ListingOf(offsets[1..], entities, describe);
          Listing([OffsetPrefix(offset) + body.text + "\n"] + rest.lines, rest.fault)
  }

  /** What disassemble_to_file writes: the listing with every entity described by its type. */
  function Disassemble(offsets: seq<nat>, entities: map<nat, Entity>, readShiftJis: ShiftJisReader): Listing
  {
    ListingOf(offsets, entities, e => EntityText(e, readShiftJis))
  }

  /** Whether every offset has an entity whose description completes. */
  predicate Described(offsets: seq<nat>, entities: map<nat, Entity>, describe: Entity -> Body)
  {
    forall i :: 0 <= i < |offsets| ==> offsets[i] in entities && describe(entities[offsets[i]]).complete
  }

  /** Whether every offset has an entity and no listed switch-case table is empty. */
  predicate Writable(offsets: seq<nat>, entities: map<nat, Entity>)
  {
    forall i :: 0 <= i < |offsets| ==>
      offsets[i] in entities && !(entities[offsets[i]].SwitchTable? && |entities[offsets[i]].table.branches| == 0)
  }

  /** A listing runs to the end exactly when every offset has an entity whose description completes. */
  lemma {:induction false} ListingOfCompletesIff(offsets: seq<nat>, entities: map<nat, Entity>, describe: Entity -> Body)
    ensures ListingOf(offsets, entities, describe).fault == None <==> Described(offsets, entities, describe)
  {
    if |offsets| > 0 {
      var tail := offsets[1..];
      ListingOfCompletesIff(tail, entities, describe);
      if Described(tail, entities, describe) {
        forall i | 1 <= i < |offsets|
          ensures offsets[i] in entities && describe(entities[offsets[i]]).complete
        {
          assert offsets[i] == tail[i - 1];
        }
      }
      if Described(offsets, entities, describe) {
        forall i | 0 <= i < |tail|
          ensures tail[i] in entities && describe(entities[tail[i]]).complete
        {
          assert tail[i] == offsets[i + 1];
        }
      }
    }
  }

  /** The listing completes exactly when every listed offset has an entity and no listed switch-case table is empty. */
  lemma ListingCompletesIff(offsets: seq<nat>, entities: map<nat, Entity>, readShiftJis: ShiftJisReader)
    ensures Disassemble(offsets, entities, readShiftJis).fault == None <==> Writable(offsets, entities)
  {
    var describe := e => EntityText(e, readShiftJis);
    ListingOfCompletesIff(offsets, entities, describe);
    assert Described(offsets, entities, describe) <==> Writable(offsets, entities);
  }

  predicate StartsWith(s: string, prefix: string)
  {
    |prefix| <= |s| && s[..|prefix|] == prefix
  }

  lemma PrefixOfConcat(p: string, rest: string)
    ensures StartsWith(p + rest, p)
  {
    assert (p + rest)[..|p|] == p;
  }

  /** `R` relates every element of `xs` to the element of `ys` at the same position. */
  predicate Pairwise<A, B>(xs: seq<A>, ys: seq<B>, R: (A, B) -> bool)
  {
    |xs| <= |ys| && forall i :: 0 <= i < |xs| ==> R(xs[i], ys[i])
  }

  lemma PairwiseCons<A, B>(x: A, xs: seq<A>, ys: seq<B>, R: (A, B) -> bool)
    requires |ys| > 0 && R(x, ys[0]) && Pairwise(xs, ys[1..], R)
    ensures Pairwise([x] + xs, ys, R)
  {
    var all := [x] + xs;
    forall i | 1 <= i < |all|
      ensures R(all[i], ys[i])
    {
      assert all[i] == xs[i - 1] && ys[i] == ys[1..][i - 1];
    }
  }

  /** A line that starts with the prefix of `offset`. */
  predicate LineStartsAt(line: string, offset: nat)
  {
    StartsWith(line, OffsetPrefix(offset))
  }

  /** Every line written, complete or not, starts with the prefix of its offset, in list order. */
  lemma {:induction false} ListingPrefixes(offsets: seq<nat>, entities: map<nat, Entity>, describe: Entity -> Body)
    ensures Pairwise(ListingOf(offsets, entities, describe).lines, offsets, LineStartsAt)
  {
    if |offsets| > 0 {
      var offset, tail := offsets[0], offsets[1..];
      var p := OffsetPrefix(offset);
      if offset in entities {
        var body := describe(entities[offset]);
        if body.complete {
          var rest := ListingOf(tail, entities, describe);
          ListingPrefixes(tail, entities, describe);
          PrefixOfConcat(p, body.text + "\n");
          assert p + body.text + "\n" == p + (body.text + "\n");
          assert LineStartsAt(p + body.text + "\n", offset);
          PairwiseCons(p + body.text + "\n", rest.lines, offsets, LineStartsAt);
        } else {
          PrefixOfConcat(p, body.text);
        }
      } else {
        assert p[..|p|] == p;
      }
    }
  }

  /** The line of a described entity: the offset's prefix, the entity's text and a newline. */
  predicate LineDescribes(entities: map<nat, Entity>, describe: Entity -> Body, line: string, offset: nat)
  {
    offset in entities && line == OffsetPrefix(offset) + describe(entities[offset]).text + "\n"
  }

  /** A complete listing has exactly one line per offset: its prefix, the entity's text and a newline. */
  lemma {:induction false} ListingLines(offsets: seq<nat>, entities: map<nat, Entity>, describe: Entity -> Body)
    requires ListingOf(offsets, entities, describe).fault == None
    ensures var lines := ListingOf(offsets, entities, describe).lines;
      |lines| == |offsets| && Pairwise(lines, offsets, (line, offset) => LineDescribes(entities, describe, line, offset))
  {
    if |offsets| > 0 {
      var tail := offsets[1..];
      var rest := ListingOf(tail, entities, describe);
      ListingLines(tail, entities, describe);
      var line := OffsetPrefix(offsets[0]) + describe(entities[offsets[0]]).text + "\n";
      PairwiseCons(line, rest.lines, offsets, (line, offset) => LineDescribes(entities, describe, line, offset));
    }
  }

  /** A file whose every listed offset has an entity, as the parser keeps it, never stops on a missing entity. */
  lemma ParsedFileHasEveryEntity(file: PacFile, readShiftJis: ShiftJisReader)
    requires file.Valid()
    ensures Disassemble(file.entitiesOffsets, file.entities, readShiftJis).fault == None
         || Disassemble(file.entitiesOffsets, file.entities, readShiftJis).fault.value.NoBranches?
  {
    NoMissingEntity(file.entitiesOffsets, file.entities, e => EntityText(e, readShiftJis));
  }

  lemma {:induction false} NoMissingEntity(offsets: seq<nat>, entities: map<nat, Entity>, describe: Entity -> Body)
    requires forall i :: 0 <= i < |offsets| ==> offsets[i] in entities
    ensures ListingOf(offsets, entities, describe).fault == None
         || ListingOf(offsets, entities, describe).fault.value.NoBranches?
  {
    if |offsets| > 0 {
      assert offsets[0] in entities;
      NoMissingEntity(offsets[1..], entities, describe);
    }
  }

  /** The line prefix is the offset in at least 8 hex digits, which read back as the offset, then two spaces. */
  lemma OffsetReadsBack(offset: nat)
    ensures var p := OffsetPrefix(offset);
      && |p| >= 10 && p[|p| - 2..] == "  "
      && ' ' !in p[..|p| - 2]
      && ParseHex(p[..|p| - 2]) == Some(offset)
  {
    var p := OffsetPrefix(offset);
    Hex8RoundTrip(offset);
    assert p[..|p| - 2] == Hex8(offset);
  }

  /** The warning closes an instruction's line exactly when the instruction is cut off. */
  lemma CutOffWarningIff(instruction: PacInstruction)
    ensures var text := InstructionText(instruction);
      |text| >= |CutOffWarning| && text[|text| - |CutOffWarning|..] == CutOffWarning <==> instruction.cutOff
  {
    var text := InstructionText(instruction);
    if !instruction.cutOff {
      assert text[|text| - 1] == ')';
    } else {
      var head := SignedHex(instruction.signature) + ":" + instruction.name + "(" + ParamsText(instruction.orderedParams) + ")";
      assert text == head + CutOffWarning;
      assert text[|text| - |CutOffWarning|..] == CutOffWarning;
    }
  }

  /** A string argument is printed in quotes with no NUL left inside. */
  lemma StringValueWithoutNul(s: string)
    ensures var text := ValueText(StrValue(s));
      && |text| >= 2 && text[0] == '"' && text[|text| - 1] == '"'
      && '\0' !in text
      && text[1..|text| - 1] == Without(s, '\0')
  {
    var text := ValueText(StrValue(s));
    assert text == "\"" + Without(s, '\0') + "\"";
    assert text[1..|text| - 1] == Without(s, '\0');
  }

  /** No arguments print nothing; each further argument adds `", "` and its text, so no separator trails. */
  lemma ParamsTextSeparated(params: seq<(Param, ParamValue)>, p: (Param, ParamValue))
    ensures ParamsText([]) == ""
    ensures |params| == 0 ==> ParamsText(params + [p]) == ParamText(p)
    ensures |params| > 0 ==> ParamsText(params + [p]) == ParamsText(params) + ", " + ParamText(p)
  {
    assert ParamTexts(params + [p]) == ParamTexts(params) + [ParamText(p)];
    if |params| > 0 {
      JoinSnoc(ParamTexts(params), ParamText(p), ", ");
    }
  }

  /** An entity of a type the listing does not know gives only its offset and the newline. */
  lemma UnlistedEntityLine(offset: nat, name: string, entities: map<nat, Entity>, readShiftJis: ShiftJisReader)
    requires offset in entities && entities[offset] == Unlisted(name)
    ensures Disassemble([offset], entities, readShiftJis) == Listing([OffsetPrefix(offset) + "\n"], None)
  {
    var describe := e => EntityText(e, readShiftJis);
    assert [offset][1..] == [];
    var rest := ListingOf([offset][1..], entities, describe);
    assert rest == Listing([], None);
    assert describe(entities[offset]) == Body("", true);
    var p := OffsetPrefix(offset);
    assert p + "" == p;
    assert [p + "\n"] + rest.lines == [p + "\n"];
  }

  // ------------------------------------------------------------ separators

  /** Every part followed by the separator, as a loop that writes `part + sep` produces. */
  function Terminated(parts: seq<string>, sep: string): string
  {
    if |parts| == 0 then "" else Terminated(parts[..|parts| - 1], sep) + parts[|parts| - 1] + sep
  }

  lemma TerminatedSnoc(parts: seq<string>, last: string, sep: string)
    ensures Terminated(parts + [last], sep) == Terminated(parts, sep) + last + sep
  {
    assert (parts + [last])[..|parts|] == parts;
  }

  /** Writing one more part of `parts` adds that part and a separator. */
  lemma TerminatedPrefix(parts: seq<string>, i: nat, sep: string)
    requires i < |parts|
    ensures Terminated(parts[..i + 1], sep) == Terminated(parts[..i], sep) + parts[i] + sep
  {
    assert parts[..i + 1][..i] == parts[..i];
  }

  lemma {:induction false} TerminatedCons(a: string, parts: seq<string>, sep: string)
    ensures Terminated([a] + parts, sep) == a + sep + Terminated(parts, sep)
  {
    if |parts| > 0 {
      var init := parts[..|parts| - 1];
      assert ([a] + parts)[..|parts|] == [a] + init;
      TerminatedCons(a, init, sep);
    }
  }

  /** Joining is writing all but the last part with a separator after it, then the last part. */
  lemma {:induction false} JoinAsTerminated(parts: seq<string>, sep: string)
    requires |parts| > 0
    ensures Join(parts, sep) == Terminated(parts[..|parts| - 1], sep) + parts[|parts| - 1]
  {
    if |parts| > 1 {
      var tail := parts[1..];
      JoinAsTerminated(tail, sep);
      assert parts[..|parts| - 1] == [parts[0]] + tail[..|tail| - 1];
      TerminatedCons(parts[0], tail[..|tail| - 1], sep);
    }
  }

  lemma JoinSnoc(parts: seq<string>, last: string, sep: string)
    requires |parts| > 0
    ensures Join(parts + [last], sep) == Join(parts, sep) + sep + last
  {
    var all := parts + [last];
    JoinAsTerminated(all, sep);
    JoinAsTerminated(parts, sep);
    assert all[..|all| - 1] == parts;
    assert parts == parts[..|parts| - 1] + [parts[|parts| - 1]];
  }

  // ------------------------------------------------------------ the writer

  /** The argument loop of the `PAC_instruction` branch: each argument but the last followed by `", "`, then the last. */
  method WriteParams(params: seq<(Param, ParamValue)>) returns (text: string)
    ensures text == ParamsText(params)
  {
    text := "";
    if |params| > 0 {
      ghost var texts := ParamTexts(params);
      for i := 0 to |params| - 1
        invariant text == Terminated(texts[..i], ", ")
      {
        TerminatedPrefix(texts, i, ", ");
        text := text + ParamText(params[i]) + ", ";
      }
      JoinAsTerminated(texts, ", ");
      text := text + ParamText(params[|params| - 1]);
    }
  }

  /** The `PAC_instruction` branch of `disassemble_to_file`: an instruction's text. */
  method WriteInstruction(instruction: PacInstruction) returns (text: string)
    ensures text == InstructionText(instruction)
  {
    text := SignedHex(instruction.signature) + ":" + instruction.name + "(";
    var params := WriteParams(instruction.orderedParams);
    text := text + params + ")";
    if instruction.cutOff {
      text := text + CutOffWarning;
    }
  }

  /** The branch-address loop of the `Switch_case_table` branch: each branch but the last followed by `", "`, then the last; None without branches. */
  method WriteBranches(branches: seq<int>) returns (text: Option<string>)
    ensures text.Some? <==> |branches| > 0
    ensures text.Some? ==> text.value == Join(BranchTexts(branches), ", ")
  {
    if |branches| == 0 {
      return None;
    }
    ghost var texts := BranchTexts(branches);
    var written := "";
    for i := 0 to |branches| - 1
      invariant written == Terminated(texts[..i], ", ")
    {
      TerminatedPrefix(texts, i, ", ");
      written := written + SignedHex(branches[i]) + ", ";
    }
    JoinAsTerminated(texts, ", ");
    return Some(written + SignedHex(branches[|branches| - 1]));
  }

  /** The `Switch_case_table` branch of `disassemble_to_file`: the header, then the addresses and `)`; nothing after the header without branches. */
  method WriteSwitchTable(table: SwitchCaseTable) returns (body: Body)
    ensures body == TableBody(table)
  {
    var header := TableHeader(table);
    var addresses := WriteBranches(table.branches);
    if addresses.None? {
      return Body(header, false);
    }
    return Body(header + addresses.value + ")", true);
  }

  /** The type dispatch of `disassemble_to_file`: the text of one entity, written by its kind. */
  method WriteEntity(entity: Entity, readShiftJis: ShiftJisReader) returns (body: Body)
    ensures body == EntityText(entity, readShiftJis)
  {
    match entity {
      case Instruction(i) =>
        var text := WriteInstruction(i);
        body := Body(text, true);
      case SwitchTable(t) =>
        body := WriteSwitchTable(t);
      case _ =>
        body := EntityText(entity, readShiftJis);
    }
  }

  lemma ConcatAssoc<T>(a: seq<T>, b: seq<T>, c: seq<T>)
    ensures a + (b + c) == (a + b) + c
  {
  }

  /** One step of the listing at position `i`: the line at that offset, then the listing of the rest. */
  lemma ListingStep(offsets: seq<nat>, i: nat, entities: map<nat, Entity>, describe: Entity -> Body)
    requires i < |offsets|
    ensures var here, offset := ListingOf(offsets[i..], entities, describe), offsets[i];
      var p, rest := OffsetPrefix(offset), ListingOf(offsets[i + 1..], entities, describe);
      && (offset !in entities ==> here == Listing([p], Some(MissingEntity(offset))))
      && (offset in entities && !describe(entities[offset]).complete ==>
            here == Listing([p + describe(entities[offset]).text], Some(NoBranches(offset))))
      && (offset in entities && describe(entities[offset]).complete ==>
            here == Listing([p + describe(entities[offset]).text + "\n"] + rest.lines, rest.fault))
  {
    assert offsets[i..][0] == offsets[i];
    assert offsets[i..][1..] == offsets[i + 1..];
  }

  /** `disassemble_to_file`, with the lines written returned instead of a file. */
  method DisassembleToFile(file: PacFile, readShiftJis: ShiftJisReader) returns (out: Listing)
    ensures out == Disassemble(file.entitiesOffsets, file.entities, readShiftJis)
  {
    ghost var describe := e => EntityText(e, readShiftJis);
    var offsets, entities := file.entitiesOffsets, file.entities;
    var lines: seq<string> := [];
    for i := 0 to |offsets|
      invariant var rest := ListingOf(offsets[i..], entities, describe);
        ListingOf(offsets, entities, describe) == Listing(lines + rest.lines, rest.fault)
    {
      ListingStep(offsets, i, entities, describe);
      var fileOffset := offsets[i];
      var line := OffsetPrefix(fileOffset);
      if fileOffset !in entities {
        return Listing(lines + [line], Some(MissingEntity(fileOffset)));
      }
      var body := WriteEntity(entities[fileOffset], readShiftJis);
      line := line + body.text;
      if !body.complete {
        return Listing(lines + [line], Some(NoBranches(fileOffset)));
      }
      ConcatAssoc(lines, [line + "\n"], ListingOf(offsets[i + 1..], entities, describe).lines);
      lines := lines + [line + "\n"];
    }
    assert offsets[|offsets|..] == [];
    return Listing(lines, None);
  }
}
