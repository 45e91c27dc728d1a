/** The script instruction codec: `Util.opcodeDec` (Ruby/util.rb), which
    decodes one instruction at a ROM address, and the per-instruction byte
    assembly of `buildTranslatedScripts` (Ruby/main.rb), which re-emits it.
    The opcode table is a parameter: one entry per opcode byte below 0x15,
    giving the handler name and the fixed length. */
module Opcodes {
  import opened Wrappers
  import opened Bytes
  import opened Text
  import opened Wrap
  import Pointers

  /** The handler names the code tests for; any other name is `OpOther`. */
  datatype OpName =
    | OpInlineCode | OpCallFunction | OpSetPortrait | OpJump | OpGosub
    | OpExit | OpMenuCreate | OpMenuExit | OpText | OpOther(name: string)

  /** One row of the opcode table; a missing length reads as 0. */
  datatype OpInfo = OpInfo(name: OpName, length: nat)

  /** Opcode bytes at or above this start a text run. */
  const TextThreshold := 0x15

  predicate IsVariable(name: OpName) {
    name == OpInlineCode || name == OpCallFunction
  }

  /** What an instruction carries besides its bytes. */
  datatype OpData =
    | NoData
    | InlineData
    | CallData(target: int, vars: seq<int>)
    | PortraitData(portrait: Option<int>, position: Option<int>)
    | JumpData(target: int)
    | TextData(text: string)

  /** A decoded instruction: its first byte, its handler, its parameter bytes
      (`opBytes`) and the address of the next instruction. */
  datatype Instr = Instr(opByte: byte, name: OpName, params: seq<int>, next: int, data: OpData)

  function ByteAt(rom: seq<byte>, addr: int): Result<byte, Fault> {
    if 0 <= addr < |rom| then Ok(rom[addr]) else Err(ReadPastEnd(addr))
  }

  /** A byte that ends a text run: 0 or 4..0x14. */
  predicate IsStop(b: byte) {
    b == 0 || 4 <= b < TextThreshold
  }

  /** Where the text run that starts at `i` ends: bytes above 0x14 and the
      control bytes 1..3 are consumed, a byte above 0xFC together with its
      successor, whatever that is. */
  function TextRunEnd(rom: seq<byte>, i: nat): (r: Result<nat, Fault>)
    ensures r.Ok? ==> i <= r.value < |rom| && IsStop(rom[r.value])
    ensures r.Ok? && i < |rom| ==> (r.value == i <==> IsStop(rom[i]))
    decreases |rom| - i
  {
    if i >= |rom| then Err(ReadPastEnd(i))
    else if IsStop(rom[i]) then Ok(i)
    else if rom[i] > 0xFC then
      if i + 1 >= |rom| then Err(ReadPastEnd(i + 1)) else TextRunEnd(rom, i + 2)
    else TextRunEnd(rom, i + 1)
  }

  /** The even address at or after `offset + 1`, where the length word of an
      inline-code or call instruction sits. */
  function Aligned(offset: int): (a: int)
    ensures a % 2 == 0 && offset + 1 <= a <= offset + 2
  {
    if (offset + 1) % 2 == 1 then offset + 2 else offset + 1
  }

  /** `Util.opcodeDec` as a function of the ROM and the address. */
  function Decode(rom: seq<byte>, table: seq<OpInfo>, exportTable: ExportTable, offset: int): Result<Instr, Fault>
    requires |table| >= TextThreshold
  {
    var opByte :- ByteAt(rom, offset);
    if opByte >= TextThreshold then DecodeText(rom, exportTable, offset, opByte)
    else if IsVariable(table[opByte].name) then DecodeVariable(rom, table[opByte].name, offset, opByte)
    else DecodeFixed(rom, table[opByte], offset, opByte)
  }

  /** An inline-code or call instruction: a length word at the next even
      address counts itself and the payload; a call payload starts with the
      32-bit target. */
  function DecodeVariable(rom: seq<byte>, name: OpName, offset: int, opByte: byte): Result<Instr, Fault> {
    var a := Aligned(offset);
    var lenBytes :- Pointers.ReadBytes(rom, a, 2);
    var len := FromBE(lenBytes);
    var payload :- if len >= 2 then Pointers.ReadBytes(rom, a + 2, len - 2) else Ok([]);
    if name == OpInlineCode then
      Ok(Instr(opByte, name, payload, a + len, InlineData))
    else if |payload| < 4 then Err(ShortCallPayload)
    else Ok(Instr(opByte, name, payload, a + len, CallData(FromBE(payload[..4]), payload[4..])))
  }

  /** A fixed-length instruction: the table length counts the opcode byte. */
  function DecodeFixed(rom: seq<byte>, info: OpInfo, offset: int, opByte: byte): Result<Instr, Fault> {
    var params :- if info.length >= 1 then Pointers.ReadBytes(rom, offset + 1, info.length - 1) else Ok([]);
    var data :=
      if info.name == OpSetPortrait then
        PortraitData(if |params| > 0 then Some(params[0]) else None, if |params| > 1 then Some(params[1]) else None)
      else if info.name == OpJump || info.name == OpGosub then JumpData(FromBE(params))
      else NoData;
    Ok(Instr(opByte, info.name, params, offset + info.length, data))
  }

  /** A text run, decoded as a string. */
  function DecodeText(rom: seq<byte>, exportTable: ExportTable, offset: int, opByte: byte): Result<Instr, Fault>
    requires 0 <= offset
  {
    var end :- TextRunEnd(rom, offset);
    var text :- DecodeFrom(rom[offset..end], exportTable, 0);
    Ok(Instr(opByte, OpText, rom[offset..end], end, TextData(text)))
  }

  /** `Util.opcodeDec`: the cursor advances over one instruction. */
  method OpcodeDec(rom: seq<byte>, table: seq<OpInfo>, exportTable: ExportTable, offset: int) returns (r: Result<Instr, Fault>)
    requires |table| >= TextThreshold
    ensures r == Decode(rom, table, exportTable, offset)
  {
    if !(0 <= offset < |rom|) {
      return Err(ReadPastEnd(offset));
    }
    var opByte := rom[offset];
    if opByte >= TextThreshold {
      r := TextDec(rom, exportTable, offset, opByte);
    } else if IsVariable(table[opByte].name) {
      r := VariableDec(rom, table[opByte].name, offset, opByte);
    } else {
      r := FixedDec(rom, table[opByte], offset, opByte);
    }
  }

  method VariableDec(rom: seq<byte>, name: OpName, offset: int, opByte: byte) returns (r: Result<Instr, Fault>)
    requires 0 <= offset
    ensures r == DecodeVariable(rom, name, offset, opByte)
  {
    var current := offset + 1;
    if current % 2 == 1 {
      current := current + 1;
    }
    if current + 2 > |rom| {
      return Err(ReadPastEnd(current));
    }
    var len := FromBE(rom[current..current + 2]);
    current := current + 2;
    var payload: seq<int> := [];
    if len >= 2 {
      if current + len - 2 > |rom| {
        return Err(ReadPastEnd(current));
      }
      payload := rom[current..current + len - 2];
    }
    current := current + len - 2;
    if name == OpInlineCode {
      return Ok(Instr(opByte, name, payload, current, InlineData));
    }
    if |payload| < 4 {
      return Err(ShortCallPayload);
    }
    return Ok(Instr(opByte, name, payload, current, CallData(FromBE(payload[..4]), payload[4..])));
  }

  method FixedDec(rom: seq<byte>, info: OpInfo, offset: int, opByte: byte) returns (r: Result<Instr, Fault>)
    requires 0 <= offset
    ensures r == DecodeFixed(rom, info, offset, opByte)
  {
    var current := offset + 1;
    var params: seq<int> := [];
    if info.length >= 1 {
      if current + info.length - 1 > |rom| {
        return Err(ReadPastEnd(current));
      }
      params := rom[current..current + info.length - 1];
    }
    current := current + info.length - 1;
    var data := NoData;
    if info.name == OpSetPortrait {
      data := PortraitData(if |params| > 0 then Some(params[0]) else None, if |params| > 1 then Some(params[1]) else None);
    } else if info.name == OpJump || info.name == OpGosub {
      data := JumpData(FromBE(params));
    }
    return Ok(Instr(opByte, info.name, params, current, data));
  }

  method TextDec(rom: seq<byte>, exportTable: ExportTable, offset: int, opByte: byte) returns (r: Result<Instr, Fault>)
    requires 0 <= offset
    ensures r == DecodeText(rom, exportTable, offset, opByte)
  {
    var current: nat := offset;
    while true
      invariant offset <= current
      invariant TextRunEnd(rom, offset) == TextRunEnd(rom, current)
      decreases |rom| - current
    {
      if current >= |rom| {
        return Err(ReadPastEnd(current));
      }
      if IsStop(rom[current]) {
        break;
      }
      if rom[current] > 0xFC {
        current := current + 1;
        if current >= |rom| {
          return Err(ReadPastEnd(current));
        }
      }
      current := current + 1;
    }
    var text := DecodeString(rom[offset..current], exportTable);
    if text.Err? {
      return Err(text.error);
    }
    return Ok(Instr(opByte, OpText, rom[offset..current], current, TextData(text.value)));
  }

  // ---------------------------------------------------------------------
  // Layout of a decoded instruction

  /** A fixed-length instruction spans exactly its table length: its
      parameters are the bytes after the opcode byte. */
  lemma FixedLayout(rom: seq<byte>, table: seq<OpInfo>, exportTable: ExportTable, offset: int)
    requires |table| >= TextThreshold
    requires Decode(rom, table, exportTable, offset).Ok?
    requires rom[offset] < TextThreshold && !IsVariable(table[rom[offset]].name)
    ensures var ins := Decode(rom, table, exportTable, offset).value;
            var len := table[rom[offset]].length;
            && ins.next == offset + len
            && (len >= 1 ==> [ins.opByte] + ins.params == rom[offset..offset + len])
            && (len == 0 ==> ins.params == [])
  {
    var len := table[rom[offset]].length;
    if len >= 1 {
      assert rom[offset..offset + len] == [rom[offset]] + rom[offset + 1..offset + len];
    }
  }

  /** An inline-code or call instruction: a length word `L` at the even
      address after the opcode byte, `L - 2` payload bytes after it, and the
      next instruction `L` bytes after the length word. */
  lemma VariableLayout(rom: seq<byte>, table: seq<OpInfo>, exportTable: ExportTable, offset: int)
    requires |table| >= TextThreshold
    requires Decode(rom, table, exportTable, offset).Ok?
    requires rom[offset] < TextThreshold && IsVariable(table[rom[offset]].name)
    ensures var ins := Decode(rom, table, exportTable, offset).value;
            var a := Aligned(offset);
            var len := FromBE(rom[a..a + 2]);
            && a + 2 <= |rom|
            && 0 <= len < 0x10000
            && ins.next == a + len
            && (len >= 2 ==> ins.params == rom[a + 2..a + len])
            && (len < 2 ==> ins.params == [])
            && (ins.name == OpCallFunction ==> |ins.params| >= 4 && ins.data == CallData(FromBE(ins.params[..4]), ins.params[4..]))
  {
    var a := Aligned(offset);
    FromBERange(rom[a..a + 2]);
  }

  /** A text instruction is a run of text bytes that stops before a 0 or a
      byte in 4..0x14, and its text is the decoding of the run. */
  lemma TextLayout(rom: seq<byte>, table: seq<OpInfo>, exportTable: ExportTable, offset: int)
    requires |table| >= TextThreshold
    requires Decode(rom, table, exportTable, offset).Ok?
    requires rom[offset] >= TextThreshold
    ensures var ins := Decode(rom, table, exportTable, offset).value;
            && offset < ins.next < |rom|
            && IsStop(rom[ins.next])
            && ins.params == rom[offset..ins.next]
            && ins.data == TextData(DecodeFrom(rom[offset..ins.next], exportTable, 0).value)
  {
  }

  /** Decoding never moves the cursor backwards; it stays put only on a
      fixed-length instruction of table length 0. */
  lemma DecodeAdvances(rom: seq<byte>, table: seq<OpInfo>, exportTable: ExportTable, offset: int)
    requires |table| >= TextThreshold
    requires Decode(rom, table, exportTable, offset).Ok?
    ensures 0 <= offset < |rom|
    ensures var ins := Decode(rom, table, exportTable, offset).value;
            ins.next >= offset &&
            (ins.next == offset ==> rom[offset] < TextThreshold && table[rom[offset]].length == 0 && !IsVariable(table[rom[offset]].name))
  {
    if rom[offset] >= TextThreshold {
      TextLayout(rom, table, exportTable, offset);
    } else if IsVariable(table[rom[offset]].name) {
      VariableLayout(rom, table, exportTable, offset);
    } else {
      FixedLayout(rom, table, exportTable, offset);
    }
  }

  /** A byte above 0xFC always takes its successor into the run, whatever
      its value, so a two-byte code is never split. */
  lemma {:induction false} RunKeepsPairs(rom: seq<byte>, i: nat, k: nat)
    requires TextRunEnd(rom, i).Ok?
    requires i <= k < TextRunEnd(rom, i).value && RunStart(rom, i, k) && rom[k] > 0xFC
    ensures k + 1 < TextRunEnd(rom, i).value
    decreases |rom| - i
  {
    if k > i {
      var next := if rom[i] > 0xFC then i + 2 else i + 1;
      RunKeepsPairs(rom, next, k);
    }
  }

  /** Position `k` begins a token of the run that starts at `i`. */
  predicate RunStart(rom: seq<byte>, i: nat, k: nat)
    decreases |rom| - i
  {
    if k == i then true
    else if i >= |rom| || k < i || IsStop(rom[i]) then false
    else if rom[i] > 0xFC then RunStart(rom, i + 2, k)
    else RunStart(rom, i + 1, k)
  }

  // ---------------------------------------------------------------------
  // Re-emission (`buildTranslatedScripts`)

  /** One row of the decoded-instruction table: id, address, length in the
      original ROM, opcode byte, parameter bytes, handler, and the text
      settings of the script it belongs to. */
  datatype OpRecord = OpRecord(
    id: int, addr: int, length: int, opByte: byte, params: seq<int>, name: OpName,
    isScript: bool, lineWidth: int)

  /** The record the exporter stores for an instruction decoded at `offset`. */
  function RecordOf(id: int, offset: int, ins: Instr, isScript: bool, lineWidth: int): OpRecord {
    OpRecord(id, offset, ins.next - offset, ins.opByte, ins.params, ins.name, isScript, lineWidth)
  }

  /** The bytes of one instruction in the rebuilt script, and for inline-code
      and call instructions the position of the payload inside them. */
  datatype Emitted = Emitted(data: seq<int>, paramsOffset: Option<int>)

  /** The translated text of a text instruction, if there is a non-empty one. */
  function TranslationOf(op: OpRecord, translations: map<int, string>): Option<string> {
    if op.name == OpText && op.addr in translations && translations[op.addr] != "" then Some(translations[op.addr]) else None
  }

  /** The bytes `buildTranslatedScripts` emits for `op` when `scriptLength`
      bytes of its group precede it: a translated text is wrapped and
      encoded; an inline-code or call instruction gets a pad byte that puts
      its length word on an even offset and a fresh length word; any other
      instruction is re-emitted as decoded and must keep its length. */
  function EmitOp(op: OpRecord, translations: map<int, string>, scriptLength: int,
                  importTable: ImportTable, widths: seq<int>): (r: Result<Emitted, Fault>)
    ensures IsVariable(op.name) ==> r == Ok(VariableBytes(op.opByte, op.params, scriptLength))
    ensures r.Err? ==> r == Err(WrongLength(op.id)) || TranslationOf(op, translations).Some?
    ensures r.Ok? && TranslationOf(op, translations).None? && !IsVariable(op.name) ==>
      |r.value.data| == op.length && r.value.paramsOffset.None?
  {
    var translation := TranslationOf(op, translations);
    if translation.Some? then
      var message :- Prepare(translation, op.lineWidth, op.isScript, widths);
      var bytes := if message.Some? then Encode(ExpandMarks(message.value), importTable).bytes else [];
      Ok(Emitted(bytes, None))
    else if IsVariable(op.name) then
      Ok(VariableBytes(op.opByte, op.params, scriptLength))
    else
      var data := if op.name != OpText then [op.opByte] + op.params else op.params;
      if op.length != |data| then Err(WrongLength(op.id)) else Ok(Emitted(data, None))
  }

  /** The bytes of an inline-code or call instruction. */
  function VariableBytes(opByte: byte, params: seq<int>, scriptLength: int): Emitted {
    var pad := if (1 + scriptLength) % 2 != 0 then [0] else [];
    var head := [opByte] + pad + ToBE(|params| + 2, 2);
    Emitted(head + params, Some(|head|))
  }

  /** The emitted inline-code or call instruction: the opcode byte, a pad
      byte exactly when the length word would otherwise sit at an odd offset
      of the group, a length word that counts itself and the payload (the
      decoded `L` again), then the payload. */
  lemma EmitVariable(opByte: byte, params: seq<int>, scriptLength: int)
    ensures var e := VariableBytes(opByte, params, scriptLength);
            var k := e.paramsOffset.value;
            && 3 <= k <= 4
            && e.data[..1] == [opByte]
            && (k == 4 <==> scriptLength % 2 == 0)
            && (k == 4 ==> e.data[1] == 0)
            && (scriptLength + k - 2) % 2 == 0
            && FromBE(e.data[k - 2..k]) == (|params| + 2) % 0x10000
            && e.data[k..] == params
  {
    var pad := if (1 + scriptLength) % 2 != 0 then [0] else [];
    var word := ToBE(|params| + 2, 2);
    var head := [opByte] + pad + word;
    var data := head + params;
    FromToBE(|params| + 2, 2);
    assert |word| == 2;
    if scriptLength % 2 == 0 {
      assert pad == [0] && |head| == 4 && data[1] == 0;
    } else {
      assert pad == [] && |head| == 3;
    }
    assert data[|head| - 2..|head|] == word;
    assert Pow256(2) == 0x10000;
    assert data[..1] == [opByte];
    assert data[|head|..] == params;
  }

  /** Two byte pairs with the same big-endian value are equal. */
  lemma SameWord(x: seq<int>, y: seq<int>)
    requires |x| == 2 && |y| == 2 && IsByteSeq(x) && IsByteSeq(y)
    requires FromBE(x) == FromBE(y) % 0x10000
    ensures x == y
  {
    FromBERange(y);
    assert Pow256(2) == 0x10000;
    DivModUnique(FromBE(y), 0x10000, 0, FromBE(y));
    ToFromBE(x);
    ToFromBE(y);
    assert ToBE(FromBE(x), 2) == ToBE(FromBE(y), 2);
  }

  /** Re-emitting a decoded inline-code or call instruction writes back the
      length word it was decoded from. */
  lemma VariableRoundTrip(rom: seq<byte>, table: seq<OpInfo>, exportTable: ExportTable, offset: int,
                          ins: Instr, scriptLength: int)
    requires |table| >= TextThreshold
    requires Decode(rom, table, exportTable, offset) == Ok(ins)
    requires rom[offset] < TextThreshold && IsVariable(table[rom[offset]].name)
    requires var a := Aligned(offset); FromBE(rom[a..a + 2]) >= 2
    ensures var e := VariableBytes(ins.opByte, ins.params, scriptLength);
            var k := e.paramsOffset.value;
            var a := Aligned(offset);
            && 2 <= k <= |e.data|
            && e.data[k - 2..k] == rom[a..a + 2]
            && e.data[k..] == rom[a + 2..ins.next]
  {
    VariableLayout(rom, table, exportTable, offset);
    var a := Aligned(offset);
    WordAndPayload(rom, a, ins.next - a, ins.params, ins.opByte, scriptLength);
  }

  lemma WordAndPayload(rom: seq<byte>, a: int, len: int, params: seq<int>, opByte: byte, scriptLength: int)
    requires 0 <= a && a + 2 <= |rom| && len == FromBE(rom[a..a + 2]) && len >= 2 && a + len <= |rom|
    requires params == rom[a + 2..a + len]
    ensures var e := VariableBytes(opByte, params, scriptLength);
            var k := e.paramsOffset.value;
            && 2 <= k <= |e.data|
            && e.data[k - 2..k] == rom[a..a + 2]
            && e.data[k..] == params
  {
    EmitVariable(opByte, params, scriptLength);
    var e := VariableBytes(opByte, params, scriptLength);
    var k := e.paramsOffset.value;
    assert |params| + 2 == len;
    SameWord(e.data[k - 2..k], rom[a..a + 2]);
  }

  /** A decoded fixed-length instruction is re-emitted as the very bytes it
      was decoded from. */
  lemma FixedRoundTrip(rom: seq<byte>, table: seq<OpInfo>, exportTable: ExportTable, offset: int,
                       ins: Instr, id: int, translations: map<int, string>, scriptLength: int,
                       importTable: ImportTable, widths: seq<int>, isScript: bool, lineWidth: int)
    requires |table| >= TextThreshold
    requires Decode(rom, table, exportTable, offset) == Ok(ins)
    requires rom[offset] < TextThreshold && !IsVariable(table[rom[offset]].name)
    requires table[rom[offset]].length >= 1 && table[rom[offset]].name != OpText
    ensures EmitOp(RecordOf(id, offset, ins, isScript, lineWidth), translations, scriptLength, importTable, widths)
            == Ok(Emitted(rom[offset..ins.next], None))
  {
    FixedLayout(rom, table, exportTable, offset);
  }

  // ---------------------------------------------------------------------
  // A whole group

  /** What emits one instruction when a given number of bytes of its group
      precede it. */
  type Emitter = (OpRecord, int) -> Result<Emitted, Fault>

  /** The emitter of `buildTranslatedScripts`. */
  function EmitterOf(translations: map<int, string>, importTable: ImportTable, widths: seq<int>): (emit: Emitter)
    ensures KeepsCalls(emit)
  {
    (op, scriptLength) => EmitOp(op, translations, scriptLength, importTable, widths)
  }

  /** Inline-code and call instructions are emitted as `VariableBytes`. */
  ghost predicate KeepsCalls(emit: Emitter) {
    forall op: OpRecord, scriptLength: int :: IsVariable(op.name) ==>
      emit(op, scriptLength) == Ok(VariableBytes(op.opByte, op.params, scriptLength))
  }

  /** The instructions of a group, in address order, each emitted after the
      bytes of those before it. A re-emitted instruction keeps its recorded
      length (`EmitOp` refuses it otherwise), so the running length grows by
      the emitted size in every case. */
  function Assemble(emit: Emitter, ops: seq<OpRecord>, scriptLength: int): Result<(int, seq<Emitted>), Fault>
    decreases |ops|
  {
    if |ops| == 0 then Ok((scriptLength, []))
    else
      var e :- emit(ops[0], scriptLength);
      var rest :- Assemble(emit, ops[1..], scriptLength + |e.data|);
      Ok((rest.0, [e] + rest.1))
  }

  function SumData(es: seq<Emitted>): int {
    if |es| == 0 then 0 else SumData(es[..|es| - 1]) + |es[|es| - 1].data|
  }

  lemma {:induction false} SumDataCons(e: Emitted, es: seq<Emitted>)
    ensures SumData([e] + es) == |e.data| + SumData(es)
    decreases |es|
  {
    if |es| > 0 {
      var init := es[..|es| - 1];
      SumDataCons(e, init);
      assert ([e] + es)[..|es|] == [e] + init;
    }
  }

  /** `Assemble` with the instructions `done` already emitted as `acc`. */
  function Resume(acc: seq<Emitted>, r: Result<(int, seq<Emitted>), Fault>): Result<(int, seq<Emitted>), Fault> {
    if r.Ok? then Ok((r.value.0, acc + r.value.1)) else r
  }

  /** `Assemble` unfolded once, whether or not it succeeds. */
  lemma AssembleUnfold(emit: Emitter, ops: seq<OpRecord>, scriptLength: int)
    requires |ops| > 0
    ensures var e := emit(ops[0], scriptLength);
            Assemble(emit, ops, scriptLength)
            == if e.Err? then Err(e.error)
               else Resume([e.value], Assemble(emit, ops[1..], scriptLength + |e.value.data|))
  {
  }

  /** The group length is the total size of what was emitted. */
  lemma {:induction false} AssembleLength(emit: Emitter, ops: seq<OpRecord>, scriptLength: int)
    requires Assemble(emit, ops, scriptLength).Ok?
    ensures var (len, es) := Assemble(emit, ops, scriptLength).value;
            |es| == |ops| && len == scriptLength + SumData(es)
    decreases |ops|
  {
    if |ops| > 0 {
      AssembleUnfold(emit, ops, scriptLength);
      var e := emit(ops[0], scriptLength).value;
      AssembleLength(emit, ops[1..], scriptLength + |e.data|);
      SumDataCons(e, Assemble(emit, ops[1..], scriptLength + |e.data|).value.1);
    }
  }

  /** Every inline-code or call instruction of a group has its length word
      at an even offset from the start of the group. */
  lemma {:induction false} AssembleEven(emit: Emitter, ops: seq<OpRecord>, scriptLength: int)
    requires KeepsCalls(emit)
    requires Assemble(emit, ops, scriptLength).Ok?
    ensures EvenWords(ops, Assemble(emit, ops, scriptLength).value.1, scriptLength)
    decreases |ops|
  {
    if |ops| == 0 {
      assert Assemble(emit, ops, scriptLength).value.1 == [];
    } else {
      AssembleUnfold(emit, ops, scriptLength);
      var e := emit(ops[0], scriptLength).value;
      var rest := Assemble(emit, ops[1..], scriptLength + |e.data|).value.1;
      AssembleEven(emit, ops[1..], scriptLength + |e.data|);
      if IsVariable(ops[0].name) {
        EvenVariable(emit, ops[0], scriptLength);
      }
      EvenShift(ops, scriptLength, e, rest);
    }
  }

  /** An inline-code or call instruction emitted after `scriptLength` bytes
      has its length word at an even offset of the group. */
  lemma EvenVariable(emit: Emitter, op: OpRecord, scriptLength: int)
    requires KeepsCalls(emit) && IsVariable(op.name)
    ensures emit(op, scriptLength).Ok? && WordEven(scriptLength, emit(op, scriptLength).value)
  {
    EmitVariable(op.opByte, op.params, scriptLength);
  }

  /** The instructions `ops`, emitted as `es` from offset `start`, have
      their length words at even offsets. */
  predicate EvenWords(ops: seq<OpRecord>, es: seq<Emitted>, start: int) {
    |es| == |ops| &&
    forall j :: 0 <= j < |ops| && IsVariable(ops[j].name) ==> WordEven(start + SumData(es[..j]), es[j])
  }

  lemma EvenShift(ops: seq<OpRecord>, start: int, e: Emitted, rest: seq<Emitted>)
    requires |ops| > 0
    requires IsVariable(ops[0].name) ==> WordEven(start, e)
    requires EvenWords(ops[1..], rest, start + |e.data|)
    ensures EvenWords(ops, [e] + rest, start)
  {
    var es := [e] + rest;
    forall j | 0 <= j < |ops| && IsVariable(ops[j].name)
      ensures WordEven(start + SumData(es[..j]), es[j])
    {
      if j == 0 {
        assert es[..0] == [];
      } else {
        assert ops[1..][j - 1] == ops[j];
        assert es[..j] == [e] + rest[..j - 1];
        SumDataCons(e, rest[..j - 1]);
      }
    }
  }

  predicate WordEven(start: int, e: Emitted) {
    e.paramsOffset.Some? && (start + e.paramsOffset.value - 2) % 2 == 0
  }

  // ---------------------------------------------------------------------
  // The group table entry

  /** A rebuilt group: its total length, the bytes of each instruction under
      its id in the order the ids were stored (the order the importer lays
      them out in), and whether it holds inline-code or call instructions
      (whose 68000 code needs an even load address). */
  datatype Group = Group(length: int, ops: seq<(int, Emitted)>, hasCalls: bool)

  /** No two instructions share an id. */
  predicate DistinctIds(ops: seq<OpRecord>) {
    forall a, b :: 0 <= a < b < |ops| ==> ops[a].id != ops[b].id
  }

  /** The emitted bytes stored one instruction after another under their ids. */
  function HashOf(ops: seq<OpRecord>, es: seq<Emitted>): seq<(int, Emitted)>
    requires |ops| == |es|
    decreases |ops|
  {
    if |ops| == 0 then []
    else Put(HashOf(ops[..|ops| - 1], es[..|es| - 1]), ops[|ops| - 1].id, es[|es| - 1])
  }

  /** With distinct ids, the entries are the instructions in address order,
      each with its own bytes. */
  lemma {:induction false} HashOfInOrder(ops: seq<OpRecord>, es: seq<Emitted>)
    requires |ops| == |es| && DistinctIds(ops)
    ensures |HashOf(ops, es)| == |ops|
    ensures forall j :: 0 <= j < |ops| ==> HashOf(ops, es)[j] == (ops[j].id, es[j])
    decreases |ops|
  {
    if |ops| > 0 {
      var n := |ops| - 1;
      var init := HashOf(ops[..n], es[..n]);
      assert DistinctIds(ops[..n]) by {
        forall a, b | 0 <= a < b < n ensures ops[..n][a].id != ops[..n][b].id {
          assert ops[..n][a] == ops[a] && ops[..n][b] == ops[b];
        }
      }
      HashOfInOrder(ops[..n], es[..n]);
      forall j | 0 <= j < n ensures init[j].0 != ops[n].id {
        assert init[j] == (ops[..n][j].id, es[..n][j]) && ops[..n][j] == ops[j];
      }
      PutNew(init, ops[n].id, es[n]);
    }
  }

  /** The entries `stored` are the instructions `ops` in order, each under
      its id with its bytes from `es`, and every inline-code or call
      instruction among them has its length word at an even offset from the
      start of the group. */
  predicate StoredInOrder(ops: seq<OpRecord>, es: seq<Emitted>, stored: seq<(int, Emitted)>) {
    && |es| == |ops| && |stored| == |ops|
    && (forall j :: 0 <= j < |ops| ==> stored[j] == (ops[j].id, es[j]))
    && forall j :: 0 <= j < |ops| && IsVariable(ops[j].name) ==> WordEven(SumData(es[..j]), es[j])
  }

  /** The entries stored for an assembled group of instructions with distinct
      ids are in address order with their length words at even offsets. */
  lemma StoredEven(emit: Emitter, ops: seq<OpRecord>)
    requires KeepsCalls(emit) && DistinctIds(ops) && Assemble(emit, ops, 0).Ok?
    ensures var es := Assemble(emit, ops, 0).value.1;
            |es| == |ops| && StoredInOrder(ops, es, HashOf(ops, es))
  {
    var es := Assemble(emit, ops, 0).value.1;
    AssembleLength(emit, ops, 0);
    HashOfInOrder(ops, es);
    AssembleEven(emit, ops, 0);
  }

  /** Whichever order the ids come in, every instruction finds its own bytes
      under its id. */
  lemma {:induction false} HashOfEntries(ops: seq<OpRecord>, es: seq<Emitted>)
    requires |ops| == |es| && DistinctIds(ops)
    ensures forall j :: 0 <= j < |ops| ==> Lookup(HashOf(ops, es), ops[j].id) == Some(es[j])
    decreases |ops|
  {
    if |ops| > 0 {
      var n := |ops| - 1;
      assert DistinctIds(ops[..n]) by {
        forall a, b | 0 <= a < b < n ensures ops[..n][a].id != ops[..n][b].id {
          assert ops[..n][a] == ops[a] && ops[..n][b] == ops[b];
        }
      }
      HashOfEntries(ops[..n], es[..n]);
      forall j | 0 <= j < |ops|
        ensures Lookup(HashOf(ops, es), ops[j].id) == Some(es[j])
      {
        if j < n {
          assert ops[..n][j] == ops[j] && es[..n][j] == es[j];
          PutOther(HashOf(ops[..n], es[..n]), ops[n].id, es[n], ops[j].id);
        } else {
          PutLookup(HashOf(ops[..n], es[..n]), ops[n].id, es[n]);
        }
      }
    }
  }

  /** The group entry `buildTranslatedScripts` records for the instructions
      of one group, in address order. */
  method BuildGroup(ops: seq<OpRecord>, translations: map<int, string>, importTable: ImportTable, widths: seq<int>)
    returns (r: Result<Group, Fault>)
    ensures var a := Assemble(EmitterOf(translations, importTable, widths), ops, 0);
            && (r.Ok? <==> a.Ok?)
            && (r.Ok? ==> |a.value.1| == |ops| &&
                          r.value == Group(a.value.0, HashOf(ops, a.value.1),
                                           exists j :: 0 <= j < |ops| && IsVariable(ops[j].name)))
  {
    var emit := EmitterOf(translations, importTable, widths);
    r := BuildWith(emit, ops);
  }

  /** The loop of `BuildGroup`, for any emitter. */
  method BuildWith(emit: Emitter, ops: seq<OpRecord>) returns (r: Result<Group, Fault>)
    ensures var a := Assemble(emit, ops, 0);
            && (r.Ok? <==> a.Ok?)
            && (r.Ok? ==> |a.value.1| == |ops| &&
                          r.value == Group(a.value.0, HashOf(ops, a.value.1),
                                           exists j :: 0 <= j < |ops| && IsVariable(ops[j].name)))
  {
    var scriptLength := 0;
    var bytes: seq<(int, Emitted)> := [];
    var emitted: seq<Emitted> := [];
    var hasCalls := false;
    var i := 0;
    BuildStart(emit, ops);
    while i < |ops|
      invariant 0 <= i <= |ops| && |emitted| == i
      invariant Resumes(emit, ops, i, emitted, scriptLength)
      invariant bytes == HashOf(ops[..i], emitted)
      invariant hasCalls <==> exists j :: 0 <= j < i && IsVariable(ops[j].name)
    {
      var e := emit(ops[i], scriptLength);
      if e.Err? {
        BuildFails(emit, ops, i, emitted, scriptLength);
        return Err(e.error);
      }
      BuildStep(emit, ops, i, emitted, scriptLength);
      HashOfPush(ops, i, emitted, e.value);
      bytes := Put(bytes, ops[i].id, e.value);
      emitted := emitted + [e.value];
      hasCalls := hasCalls || IsVariable(ops[i].name);
      scriptLength := scriptLength + |e.value.data|;
      i := i + 1;
    }
    BuildEnd(emit, ops, emitted, scriptLength);
    assert ops[..i] == ops;
    return Ok(Group(scriptLength, bytes, hasCalls));
  }

  /** The loop invariant of `BuildWith`: the first `i` instructions were
      emitted as `emitted`, and `scriptLength` bytes precede the rest. */
  predicate Resumes(emit: Emitter, ops: seq<OpRecord>, i: int, emitted: seq<Emitted>, scriptLength: int)
    requires 0 <= i <= |ops|
  {
    Assemble(emit, ops, 0) == Resume(emitted, Assemble(emit, ops[i..], scriptLength))
  }

  lemma BuildStart(emit: Emitter, ops: seq<OpRecord>)
    ensures Resumes(emit, ops, 0, [], 0)
  {
    assert ops[0..] == ops;
    ResumeEmpty(Assemble(emit, ops, 0));
  }

  lemma BuildStep(emit: Emitter, ops: seq<OpRecord>, i: int, emitted: seq<Emitted>, scriptLength: int)
    requires 0 <= i < |ops| && Resumes(emit, ops, i, emitted, scriptLength)
    requires emit(ops[i], scriptLength).Ok?
    ensures var e := emit(ops[i], scriptLength).value;
            Resumes(emit, ops, i + 1, emitted + [e], scriptLength + |e.data|)
  {
    var e := emit(ops[i], scriptLength).value;
    AssembleUnfold(emit, ops[i..], scriptLength);
    assert ops[i..][1..] == ops[i + 1..];
    ResumeAssoc(emitted, [e], Assemble(emit, ops[i + 1..], scriptLength + |e.data|));
  }

  lemma BuildFails(emit: Emitter, ops: seq<OpRecord>, i: int, emitted: seq<Emitted>, scriptLength: int)
    requires 0 <= i < |ops| && Resumes(emit, ops, i, emitted, scriptLength)
    requires emit(ops[i], scriptLength).Err?
    ensures Assemble(emit, ops, 0).Err?
  {
    AssembleUnfold(emit, ops[i..], scriptLength);
  }

  lemma BuildEnd(emit: Emitter, ops: seq<OpRecord>, emitted: seq<Emitted>, scriptLength: int)
    requires Resumes(emit, ops, |ops|, emitted, scriptLength)
    ensures Assemble(emit, ops, 0) == Ok((scriptLength, emitted))
  {
    assert ops[|ops|..] == [];
    assert emitted + [] == emitted;
  }

  lemma HashOfPush(ops: seq<OpRecord>, i: int, es: seq<Emitted>, e: Emitted)
    requires 0 <= i < |ops| && |es| == i
    ensures HashOf(ops[..i + 1], es + [e]) == Put(HashOf(ops[..i], es), ops[i].id, e)
  {
    assert ops[..i + 1][..i] == ops[..i];
    assert (es + [e])[..i] == es;
  }

  lemma ResumeEmpty(r: Result<(int, seq<Emitted>), Fault>)
    ensures Resume([], r) == r
  {
    if r.Ok? {
      assert [] + r.value.1 == r.value.1;
    }
  }

  lemma ResumeAssoc(a: seq<Emitted>, b: seq<Emitted>, r: Result<(int, seq<Emitted>), Fault>)
    ensures Resume(a, Resume(b, r)) == Resume(a + b, r)
  {
    if r.Ok? {
      assert a + (b + r.value.1) == (a + b) + r.value.1;
    }
  }
}
