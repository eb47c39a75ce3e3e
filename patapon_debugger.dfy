/**
 * The instruction-definition file: one `;`-separated row per opcode,
 *   address;A;B;C;D;raw_size;function_name;extended_name;function_desc;param_amount;
 *   param_1_type;param_1_name;param_2_type;param_2_name...
 * decoded into definitions and folded into the signature- and name-keyed registries.
 */
module PataponDebugger {
  import opened Wrappers
  import opened Builtins
  import opened FrozenKeys

  /** PAC_instruction_param: the declared type and name of one parameter. */
  datatype Param = Param(paramType: string, name: string)

  /**
   * PAC_instruction as built from a definition row. `params` is the key order of its
   * PAC_params dictionary, whose values all start as None (see NewParamDict).
   */
  datatype InstructionDefinition = InstructionDefinition(
    functionAddress: nat,
    signature: nat,
    name: string,
    description: string,
    params: seq<Param>)

  /** The exceptions a malformed row raises: a missing field, or a field that is not a hex number. */
  datatype RowError = IndexError | ValueError

  // ------------------------------------------------------------ parameters

  /** `s[0::2]`. */
  function EvenPositions<T>(s: seq<T>): (r: seq<T>)
    decreases |s|
  {
    if |s| == 0 then [] else [s[0]] + EvenPositions(PySlice(s, 2, |s|))
  }

  lemma {:induction false} EvenPositionsAt<T>(s: seq<T>)
    decreases |s|
    ensures |EvenPositions(s)| == (|s| + 1) / 2
    ensures forall i :: 0 <= i < |EvenPositions(s)| ==> EvenPositions(s)[i] == s[2 * i]
  {
    if |s| > 0 {
      var rest := PySlice(s, 2, |s|);
      EvenPositionsAt(rest);
      forall i | 0 < i < |EvenPositions(s)|
        ensures EvenPositions(s)[i] == s[2 * i]
      {
        assert EvenPositions(s)[i] == EvenPositions(rest)[i - 1];
      }
    }
  }

  /** `zip(a, b)`: as many pairs as the shorter input has elements. */
  function Zip<A, B>(a: seq<A>, b: seq<B>): (z: seq<(A, B)>)
  {
    if |a| == 0 || |b| == 0 then [] else [(a[0], b[0])] + Zip(a[1..], b[1..])
  }

  lemma {:induction false} ZipAt<A, B>(a: seq<A>, b: seq<B>)
    ensures |Zip(a, b)| == Min(|a|, |b|)
    ensures forall i :: 0 <= i < |Zip(a, b)| ==> Zip(a, b)[i] == (a[i], b[i])
  {
    if |a| > 0 && |b| > 0 {
      ZipAt(a[1..], b[1..]);
    }
  }

  /** `[PAC_instruction_param(*i) for i in zip(args_info[0::2], args_info[1::2])]`. */
  function ParamPairs(argsInfo: seq<string>): seq<Param>
  {
    var z := Zip(EvenPositions(argsInfo), EvenPositions(PySlice(argsInfo, 1, |argsInfo|)));
    seq(|z|, i requires 0 <= i < |z| => Param(z[i].0, z[i].1))
  }

  /** Parameters are consecutive (type, name) pairs; a trailing unpaired element is dropped. */
  lemma ParamPairsAt(argsInfo: seq<string>)
    ensures |ParamPairs(argsInfo)| == |argsInfo| / 2
    ensures forall i :: 0 <= i < |argsInfo| / 2 ==>
      ParamPairs(argsInfo)[i] == Param(argsInfo[2 * i], argsInfo[2 * i + 1])
  {
    var odd := PySlice(argsInfo, 1, |argsInfo|);
    EvenPositionsAt(argsInfo);
    EvenPositionsAt(odd);
    ZipAt(EvenPositions(argsInfo), EvenPositions(odd));
  }

  /** The position of the first occurrence of `x` in `s`. */
  function FirstIndex<T(==,!new)>(s: seq<T>, x: T): (k: nat)
    requires x in s
    ensures k < |s| && s[k] == x
    ensures forall j :: 0 <= j < k ==> s[j] != x
  {
    if s[0] == x then 0 else 1 + FirstIndex(s[1..], x)
  }

  lemma {:induction false} FirstIndexOfPrefix<T(!new)>(s: seq<T>, y: T, x: T)
    requires x in s
    ensures FirstIndex(s + [y], x) == FirstIndex(s, x)
  {
    var k := FirstIndex(s, x);
    var k' := FirstIndex(s + [y], x);
    assert (s + [y])[k] == x;
    assert k' <= k;
    assert s[k'] == (s + [y])[k'];
  }

  /** The key order of `dict.fromkeys(s)`: each element once, where it first occurs. */
  function FromKeys<T(==,!new)>(s: seq<T>): (keys: seq<T>)
    ensures forall x :: x in keys <==> x in s
    ensures forall i, j :: 0 <= i < j < |keys| ==> keys[i] != keys[j]
  {
    if |s| == 0 then []
    else
      var before := FromKeys(s[..|s| - 1]);
      var x := s[|s| - 1];
      assert s == s[..|s| - 1] + [x];
      if x in before then before else before + [x]
  }

  /** The keys keep the order of their first occurrences. */
  lemma {:induction false} FromKeysOrder<T(!new)>(s: seq<T>)
    ensures forall i, j :: 0 <= i < j < |FromKeys(s)| ==>
      FirstIndex(s, FromKeys(s)[i]) < FirstIndex(s, FromKeys(s)[j])
  {
    if |s| > 0 {
      var init := s[..|s| - 1];
      var x := s[|s| - 1];
      assert s == init + [x];
      FromKeysOrder(init);
      var before := FromKeys(init);
      forall y | y in init
        ensures FirstIndex(s, y) == FirstIndex(init, y)
      {
        FirstIndexOfPrefix(init, x, y);
      }
      if x !in before {
        assert x !in init;
        assert FirstIndex(s, x) == |init|;
      }
    }
  }

  /** The initial contents of PAC_params: every declared parameter, mapped to None. */
  function ParamDict<V>(params: seq<Param>): (d: map<Param, Option<V>>)
    ensures d.Keys == set p | p in params
    ensures forall p :: p in d ==> d[p] == None
  {
    map p | p in params :: None
  }

  /** Builds PAC_params: a fresh FrozenKeysDict initialised once with `dict.fromkeys(params)`. */
  method NewParamDict<V>(params: seq<Param>) returns (d: FrozenKeysDict<Param, Option<V>>)
    ensures fresh(d) && d.Valid() && !d.uninitialized
    ensures d.data == ParamDict(params)
  {
    d := new FrozenKeysDict();
    var err := d.InitializeFromDict(ParamDict(params));
  }

  // ------------------------------------------------------------ one row

  /** `PAC_instruction(instr_info, args_info)`: the fields in the order the constructor reads them. */
  function DecodeRow(instrInfo: seq<string>, argsInfo: seq<string>): (r: Result<InstructionDefinition, RowError>)
    ensures r.Success? <==>
      |instrInfo| >= 9 && ParseHex(instrInfo[0]).Some? && ParseHex(Join(instrInfo[1..5], "")).Some?
  {
    if |instrInfo| == 0 then Failure(IndexError)
    else match ParseHex(instrInfo[0])
      case None => Failure(ValueError)
      case Some(address) =>
        match ParseHex(Join(PySlice(instrInfo, 1, 5), ""))
        case None => Failure(ValueError)
        case Some(signature) =>
          if |instrInfo| < 7 || |instrInfo| < 9 then Failure(IndexError)
          else Success(InstructionDefinition(
            address, signature, instrInfo[6], instrInfo[8], FromKeys(ParamPairs(argsInfo))))
  }

  /** A row's fields: address and signature parsed as hex, name and description copied, parameters de-duplicated. */
  lemma DecodedRowFields(instrInfo: seq<string>, argsInfo: seq<string>)
    requires DecodeRow(instrInfo, argsInfo).Success?
    ensures var d := DecodeRow(instrInfo, argsInfo).value;
      && Some(d.functionAddress) == ParseHex(instrInfo[0])
      && Some(d.signature) == ParseHex(instrInfo[1] + instrInfo[2] + instrInfo[3] + instrInfo[4])
      && d.name == instrInfo[6]
      && d.description == instrInfo[8]
      && (forall i :: 0 <= i < |argsInfo| / 2 ==> Param(argsInfo[2 * i], argsInfo[2 * i + 1]) in d.params)
      && (forall p :: p in d.params ==> exists i :: 0 <= i < |argsInfo| / 2 && p == Param(argsInfo[2 * i], argsInfo[2 * i + 1]))
      && (forall i, j :: 0 <= i < j < |d.params| ==> d.params[i] != d.params[j])
      && ParamDict<int>(d.params).Keys == set p | p in ParamPairs(argsInfo)
  {
    JoinFour(instrInfo[1..5]);
    ParamPairsAt(argsInfo);
    var pairs := ParamPairs(argsInfo);
    forall p | p in DecodeRow(instrInfo, argsInfo).value.params
      ensures exists i :: 0 <= i < |argsInfo| / 2 && p == Param(argsInfo[2 * i], argsInfo[2 * i + 1])
    {
      var i := FirstIndex(pairs, p);
      assert p == Param(argsInfo[2 * i], argsInfo[2 * i + 1]);
    }
  }

  /** Fields 5, 7 and 9 (raw size, extended name, parameter count) do not influence the definition. */
  lemma RowIgnoresUnusedFields(instrInfo: seq<string>, other: seq<string>, argsInfo: seq<string>)
    requires |instrInfo| == |other| >= 9
    requires forall i :: 0 <= i < |instrInfo| && i != 5 && i != 7 && i != 9 ==> instrInfo[i] == other[i]
    ensures DecodeRow(instrInfo, argsInfo) == DecodeRow(other, argsInfo)
  {
    assert instrInfo[1..5] == other[1..5];
  }

  /** A row with fewer than 9 fields, or with a non-hex character in fields 0 to 4, is rejected. */
  lemma MalformedRowsRejected(instrInfo: seq<string>, argsInfo: seq<string>)
    ensures |instrInfo| < 9 ==> DecodeRow(instrInfo, argsInfo).Failure?
    ensures |instrInfo| == 0 ==> DecodeRow(instrInfo, argsInfo) == Failure(IndexError)
    ensures forall f, i :: 0 <= f < 5 && f < |instrInfo| && 0 <= i < |instrInfo[f]| && DigitValue(instrInfo[f][i]) >= 16 ==>
      DecodeRow(instrInfo, argsInfo) == Failure(ValueError)
  {
    forall f, i | 0 <= f < 5 && f < |instrInfo| && 0 <= i < |instrInfo[f]| && DigitValue(instrInfo[f][i]) >= 16
      ensures DecodeRow(instrInfo, argsInfo) == Failure(ValueError)
    {
      if f > 0 {
        var fs := PySlice(instrInfo, 1, 5);
        JoinHasEveryPart(fs, f - 1, i);
      }
    }
  }

  /** `"".join` of four fields is their concatenation. */
  lemma JoinFour(f: seq<string>)
    requires |f| == 4
    ensures Join(f, "") == f[0] + f[1] + f[2] + f[3]
  {
    assert Join(f[3..], "") == f[3];
    assert f[2..][1..] == f[3..];
    assert Join(f[2..], "") == f[2] + "" + f[3];
    assert f[1..][1..] == f[2..];
    assert Join(f[1..], "") == f[1] + "" + (f[2] + "" + f[3]);
    assert f[0] + "" + (f[1] + "" + (f[2] + "" + f[3])) == f[0] + f[1] + f[2] + f[3];
  }

  /** Every character of every part occurs in the concatenation. */
  lemma {:induction false} JoinHasEveryPart(parts: seq<string>, k: nat, i: nat)
    requires k < |parts| && i < |parts[k]|
    ensures exists j :: 0 <= j < |Join(parts, "")| && Join(parts, "")[j] == parts[k][i]
  {
    if |parts| == 1 {
      assert Join(parts, "")[i] == parts[0][i];
    } else {
      var tail := Join(parts[1..], "");
      assert Join(parts, "") == parts[0] + "" + tail;
      assert parts[0] + "" + tail == parts[0] + tail;
      if k == 0 {
        assert Join(parts, "")[i] == parts[0][i];
      } else {
        JoinHasEveryPart(parts[1..], k - 1, i);
        var j :| 0 <= j < |tail| && tail[j] == parts[k][i];
        assert Join(parts, "")[|parts[0]| + j] == parts[k][i];
      }
    }
  }

  /** With four two-digit fields the signature is the big-endian word A B C D. */
  lemma SignatureFromFourBytes(instrInfo: seq<string>, argsInfo: seq<string>)
    requires |instrInfo| >= 9 && ParseHex(instrInfo[0]).Some?
    requires forall f :: 1 <= f < 5 ==> |instrInfo[f]| == 2 && AllDigits(instrInfo[f], 16)
    ensures DecodeRow(instrInfo, argsInfo).Success?
    ensures DecodeRow(instrInfo, argsInfo).value.signature ==
      ValueIn(instrInfo[1], 16) * 0x100_0000 + ValueIn(instrInfo[2], 16) * 0x1_0000
      + ValueIn(instrInfo[3], 16) * 0x100 + ValueIn(instrInfo[4], 16)
  {
    var a, b, c, d := instrInfo[1], instrInfo[2], instrInfo[3], instrInfo[4];
    JoinFour(instrInfo[1..5]);
    var ab, abc := a + b, a + b + c;
    assert AllDigits(a + b + c + d, 16) by {
      forall i | 0 <= i < |a + b + c + d| ensures DigitValue((a + b + c + d)[i]) < 16 {
        if i < 2 { assert (a + b + c + d)[i] == a[i]; }
        else if i < 4 { assert (a + b + c + d)[i] == b[i - 2]; }
        else if i < 6 { assert (a + b + c + d)[i] == c[i - 4]; }
        else { assert (a + b + c + d)[i] == d[i - 6]; }
      }
    }
    assert Pow(16, 2) == 0x100;
    ValueOfConcat(a, b, 16);
    ValueOfConcat(ab, c, 16);
    ValueOfConcat(abc, d, 16);
  }

  // ------------------------------------------------------ the definition file

  /** One line of the file: `words = line.split(";")`, then `words[0:10]` and `words[10:]`. */
  function DecodeLine(line: string): Result<InstructionDefinition, RowError>
  {
    var words := Split(line, ';');
    DecodeRow(PySlice(words, 0, 10), PySlice(words, 10, |words|))
  }

  /** PAC_instructions (signature to definition) and PAC_name_to_signature. */
  datatype Registry = Registry(instructions: map<nat, InstructionDefinition>, nameToSignature: map<string, nat>)

  /** The effect of a definition file: the registries afterwards, and the error that stopped the load. */
  datatype Loaded = Loaded(registry: Registry, error: Option<RowError>)

  type Row = Result<InstructionDefinition, RowError>

  /** Records one decoded definition under its signature and its name. */
  function Record(reg: Registry, d: InstructionDefinition): (r: Registry)
    ensures r.instructions.Keys == reg.instructions.Keys + {d.signature}
    ensures r.nameToSignature.Keys == reg.nameToSignature.Keys + {d.name}
  {
    Registry(reg.instructions[d.signature := d], reg.nameToSignature[d.name := d.signature])
  }

  /** What each line of a file decodes to. */
  function DecodeLines(lines: seq<string>): (rows: seq<Row>)
    ensures |rows| == |lines|
    ensures forall k :: 0 <= k < |lines| ==> rows[k] == DecodeLine(lines[k])
  {
    seq(|lines|, k requires 0 <= k < |lines| => DecodeLine(lines[k]))
  }

  /** Records the rows one after the other; the first malformed row stops the fold. */
  function LoadRows(rows: seq<Row>, reg: Registry): Loaded
  {
    if |rows| == 0 then Loaded(reg, None)
    else match rows[0]
      case Failure(e) => Loaded(reg, Some(e))
      case Success(d) => LoadRows(rows[1..], Record(reg, d))
  }

  /** `read_instruction_set` on the lines of a file, starting from the registries as they are. */
  function LoadLines(lines: seq<string>, reg: Registry): Loaded
  {
    LoadRows(DecodeLines(lines), reg)
  }

  predicate AllSucceed(rows: seq<Row>)
  {
    forall k :: 0 <= k < |rows| ==> rows[k].Success?
  }

  /** A file whose every row is well formed loads without an error. */
  lemma {:induction false} LoadCompletes(rows: seq<Row>, reg: Registry)
    requires AllSucceed(rows)
    ensures LoadRows(rows, reg).error == None
  {
    if |rows| > 0 {
      LoadCompletes(rows[1..], Record(reg, rows[0].value));
    }
  }

  /** Rows that never mention a signature leave its entry alone. */
  lemma {:induction false} LoadKeepsUnmentionedSignature(rows: seq<Row>, reg: Registry, s: nat)
    requires AllSucceed(rows)
    requires forall k :: 0 <= k < |rows| ==> rows[k].value.signature != s
    ensures s in LoadRows(rows, reg).registry.instructions <==> s in reg.instructions
    ensures s in reg.instructions ==> LoadRows(rows, reg).registry.instructions[s] == reg.instructions[s]
  {
    if |rows| > 0 {
      LoadKeepsUnmentionedSignature(rows[1..], Record(reg, rows[0].value), s);
    }
  }

  /** Rows that never mention a name leave its entry alone. */
  lemma {:induction false} LoadKeepsUnmentionedName(rows: seq<Row>, reg: Registry, n: string)
    requires AllSucceed(rows)
    requires forall k :: 0 <= k < |rows| ==> rows[k].value.name != n
    ensures n in LoadRows(rows, reg).registry.nameToSignature <==> n in reg.nameToSignature
    ensures n in reg.nameToSignature ==>
      LoadRows(rows, reg).registry.nameToSignature[n] == reg.nameToSignature[n]
  {
    if |rows| > 0 {
      LoadKeepsUnmentionedName(rows[1..], Record(reg, rows[0].value), n);
    }
  }

  /** The last row with a given signature is the definition that stays registered under it. */
  lemma {:induction false} LastRowWinsSignature(rows: seq<Row>, reg: Registry, j: nat)
    requires AllSucceed(rows) && j < |rows|
    requires forall k :: j < k < |rows| ==> rows[k].value.signature != rows[j].value.signature
    ensures var d := rows[j].value;
      d.signature in LoadRows(rows, reg).registry.instructions &&
      LoadRows(rows, reg).registry.instructions[d.signature] == d
  {
    var d0 := rows[0].value;
    if j == 0 {
      LoadKeepsUnmentionedSignature(rows[1..], Record(reg, d0), d0.signature);
    } else {
      LastRowWinsSignature(rows[1..], Record(reg, d0), j - 1);
    }
  }

  /** The last row with a given name decides which signature that name maps to. */
  lemma {:induction false} LastRowWinsName(rows: seq<Row>, reg: Registry, j: nat)
    requires AllSucceed(rows) && j < |rows|
    requires forall k :: j < k < |rows| ==> rows[k].value.name != rows[j].value.name
    ensures var d := rows[j].value;
      d.name in LoadRows(rows, reg).registry.nameToSignature &&
      LoadRows(rows, reg).registry.nameToSignature[d.name] == d.signature
  {
    var d0 := rows[0].value;
    if j == 0 {
      LoadKeepsUnmentionedName(rows[1..], Record(reg, d0), d0.name);
    } else {
      LastRowWinsName(rows[1..], Record(reg, d0), j - 1);
    }
  }

  /** A malformed row aborts the load; the rows before it stay applied (the dictionaries are updated in place). */
  lemma {:induction false} LoadStopsAtFirstMalformedRow(rows: seq<Row>, reg: Registry, k: nat)
    requires k < |rows| && rows[k].Failure?
    requires forall i :: 0 <= i < k ==> rows[i].Success?
    ensures LoadRows(rows, reg) == Loaded(LoadRows(rows[..k], reg).registry, Some(rows[k].error))
  {
    if k > 0 {
      assert rows[1..][..k - 1] == rows[..k][1..];
      LoadStopsAtFirstMalformedRow(rows[1..], Record(reg, rows[0].value), k - 1);
    }
  }

  /** The signatures of the rows. */
  ghost function RowSignatures(rows: seq<Row>): set<nat>
    requires AllSucceed(rows)
  {
    set k | 0 <= k < |rows| :: rows[k].value.signature
  }

  lemma RowSignaturesOfTail(rows: seq<Row>)
    requires AllSucceed(rows) && |rows| > 0
    ensures RowSignatures(rows) == {rows[0].value.signature} + RowSignatures(rows[1..])
  {
    var all, rest := RowSignatures(rows), RowSignatures(rows[1..]);
    forall s | s in all ensures s in {rows[0].value.signature} + rest {
      var k :| 0 <= k < |rows| && rows[k].value.signature == s;
      if k > 0 { assert rows[1..][k - 1] == rows[k]; }
    }
    forall s | s in rest ensures s in all {
      var k :| 0 <= k < |rows[1..]| && rows[1..][k].value.signature == s;
      assert rows[1..][k] == rows[k + 1];
    }
  }

  /** After a complete load the registered signatures are the old ones plus those of every row. */
  lemma {:induction false} LoadedSignatures(rows: seq<Row>, reg: Registry)
    requires AllSucceed(rows)
    ensures LoadRows(rows, reg).registry.instructions.Keys == reg.instructions.Keys + RowSignatures(rows)
  {
    if |rows| > 0 {
      LoadedSignatures(rows[1..], Record(reg, rows[0].value));
      RowSignaturesOfTail(rows);
    }
  }

  /** The registries of a debugger session (its emulator connection and breakpoints are not modelled). */
  class PataponDebugger {
    var pacNameToSignature: map<string, nat>
    var pacInstructions: map<nat, InstructionDefinition>

    constructor ()
      ensures pacNameToSignature == map[] && pacInstructions == map[]
    {
      pacNameToSignature := map[];
      pacInstructions := map[];
    }

    /** `read_instruction_set`, with the lines of the file given instead of its path. */
    method ReadInstructionSet(lines: seq<string>) returns (err: Option<RowError>)
      modifies this
      ensures var loaded := LoadLines(lines, Registry(old(pacInstructions), old(pacNameToSignature)));
        && Registry(pacInstructions, pacNameToSignature) == loaded.registry
        && err == loaded.error
    {
      ghost var start := Registry(pacInstructions, pacNameToSignature);
      for i := 0 to |lines|
        invariant LoadLines(lines, start) == LoadRows(DecodeLines(lines)[i..], Registry(pacInstructions, pacNameToSignature))
      {
        assert DecodeLines(lines)[i..][1..] == DecodeLines(lines)[i + 1..];
        var words := Split(lines[i], ';');
        var instrInfo := PySlice(words, 0, 10);
        var argsInfo := PySlice(words, 10, |words|);
        var instruction := DecodeRow(instrInfo, argsInfo);
        if instruction.Failure? {
          return Some(instruction.error);
        }
        var d := instruction.value;
        pacInstructions := pacInstructions[d.signature := d];
        pacNameToSignature := pacNameToSignature[d.name := d.signature];
      }
      return None;
    }
  }
}
