/** The script walk of the exporter (`processScript` and its handlers in
    Ruby/main.rb): instructions are decoded one after another from a script
    address until an instruction that was already decoded, an exit outside a
    menu, or a jump; each one is recorded, and the addresses it occupies are
    added to the used space. The database tables become fields of
    `Exporter`. */
module Walk {
  import opened Wrappers
  import opened Bytes
  import opened Text
  import opened Opcodes
  import opened Scripts
  import Pointers

  // ---------------------------------------------------------------------
  // `script_ExtraFor7184`

  /** Calls to this routine carry the address of a link table in their
      variables. */
  const LinkTableCall := 0x7184

  /** A link table: the id of the call instruction that points at it, its
      address, its bytes and the script addresses it lists. */
  datatype Extra = Extra(opcode: int, pos: int, bytes: seq<int>, ptrs: seq<int>)

  /** The table occupies two count bytes and eight bytes per link. */
  function ExtraEnd(e: Extra): int {
    e.pos + 2 + 8 * |e.ptrs|
  }

  /** The script addresses of `count` links of eight bytes from `at`, each a
      big-endian long two bytes into its link. */
  function LinkPtrs(rom: seq<byte>, at: int, count: nat): (r: Result<seq<int>, Fault>)
    ensures r.Ok? ==> |r.value| == count
    decreases count
  {
    if count == 0 then Ok([])
    else
      var p :- Pointers.ReadBytes(rom, at + 2, 4);
      var rest :- LinkPtrs(rom, at + 8, count - 1);
      Ok([FromBE(p)] + rest)
  }

  /** The link table a call to 0x7184 refers to: its address is the call's
      variables read as a big-endian number, its first word is the number of
      links minus one. A table that runs past the end of the ROM keeps only
      the bytes that exist. */
  function ExtraLinks(rom: seq<byte>, opcode: int, vars: seq<int>): Result<Extra, Fault> {
    var linkOffset := FromBE(vars);
    var c :- Pointers.ReadBytes(rom, linkOffset, 2);
    var count: nat := (rom[linkOffset] as int) * 256 + rom[linkOffset + 1] + 1;
    var ptrs :- LinkPtrs(rom, linkOffset + 2, count);
    var end := linkOffset + 2 + 8 * count;
    Ok(Extra(opcode, linkOffset, rom[linkOffset..if end < |rom| then end else |rom|], ptrs))
  }

  function PrependAll(acc: seq<int>, r: Result<seq<int>, Fault>): Result<seq<int>, Fault> {
    if r.Ok? then Ok(acc + r.value) else r
  }

  /** `script_ExtraFor7184`: reads the link table with a cursor. */
  method ExtraFor7184(rom: seq<byte>, opcode: int, vars: seq<int>) returns (r: Result<Extra, Fault>)
    ensures r == ExtraLinks(rom, opcode, vars)
  {
    var linkOffset := FromBE(vars);
    if !(0 <= linkOffset && linkOffset + 2 <= |rom|) {
      return Err(ReadPastEnd(linkOffset));
    }
    var count: nat := (rom[linkOffset] as int) * 256 + rom[linkOffset + 1] + 1;
    var ptrs := ReadLinks(rom, linkOffset + 2, count);
    if ptrs.Err? {
      return Err(ptrs.error);
    }
    var end := linkOffset + 2 + 8 * count;
    return Ok(Extra(opcode, linkOffset, rom[linkOffset..if end < |rom| then end else |rom|], ptrs.value));
  }

  /** The loop of `script_ExtraFor7184` over the `count` links from `at`. */
  method ReadLinks(rom: seq<byte>, at: int, count: nat) returns (r: Result<seq<int>, Fault>)
    ensures r == LinkPtrs(rom, at, count)
  {
    var ptrs: seq<int> := [];
    var scrOffset := at;
    var k := 0;
    assert PrependAll([], LinkPtrs(rom, at, count)) == LinkPtrs(rom, at, count) by {
      var w := LinkPtrs(rom, at, count);
      if w.Ok? {
        assert [] + w.value == w.value;
      }
    }
    while k < count
      invariant 0 <= k <= count && scrOffset == at + 8 * k
      invariant LinkPtrs(rom, at, count) == PrependAll(ptrs, LinkPtrs(rom, scrOffset, count - k))
    {
      scrOffset := scrOffset + 2;
      if !(0 <= scrOffset && scrOffset + 4 <= |rom|) {
        return Err(ReadPastEnd(scrOffset));
      }
      var p := FromBE(rom[scrOffset..scrOffset + 4]);
      LinkStep(rom, scrOffset - 2, count - k, ptrs, LinkPtrs(rom, at, count));
      ptrs := ptrs + [p];
      scrOffset := scrOffset + 4;
      scrOffset := scrOffset + 2;
      k := k + 1;
    }
    assert ptrs + [] == ptrs;
    return Ok(ptrs);
  }

  lemma LinkStep(rom: seq<byte>, at: int, count: nat, acc: seq<int>, whole: Result<seq<int>, Fault>)
    requires count > 0 && 0 <= at + 2 && at + 6 <= |rom|
    requires whole == PrependAll(acc, LinkPtrs(rom, at, count))
    ensures whole == PrependAll(acc + [FromBE(rom[at + 2..at + 6])], LinkPtrs(rom, at + 8, count - 1))
  {
    var rest := LinkPtrs(rom, at + 8, count - 1);
    if rest.Ok? {
      assert acc + ([FromBE(rom[at + 2..at + 6])] + rest.value) == (acc + [FromBE(rom[at + 2..at + 6])]) + rest.value;
    }
  }

  /** The `k`-th link's script address is the long 4 + 8k bytes into the
      table. */
  lemma {:induction false} LinkPtrsAt(rom: seq<byte>, at: int, count: nat)
    requires LinkPtrs(rom, at, count).Ok?
    ensures forall k :: 0 <= k < count ==>
              0 <= at + 2 + 8 * k && at + 6 + 8 * k <= |rom| &&
              LinkPtrs(rom, at, count).value[k] == FromBE(rom[at + 2 + 8 * k..at + 6 + 8 * k])
    decreases count
  {
    if count > 0 {
      LinkPtrsAt(rom, at + 8, count - 1);
      var ps := LinkPtrs(rom, at, count).value;
      forall k | 0 <= k < count
        ensures 0 <= at + 2 + 8 * k && at + 6 + 8 * k <= |rom| && ps[k] == FromBE(rom[at + 2 + 8 * k..at + 6 + 8 * k])
      {
        if k > 0 {
          assert ps[k] == LinkPtrs(rom, at + 8, count - 1).value[k - 1];
          assert at + 8 + 2 + 8 * (k - 1) == at + 2 + 8 * k;
        }
      }
    }
  }

  /** A link table read from a call's variables holds one more link than its
      first word says, the `k`-th script address at offset 4 + 8k; only its
      last two bytes may lie beyond the ROM, and its recorded bytes are what
      of it lies inside. */
  lemma ExtraLayout(rom: seq<byte>, opcode: int, vars: seq<int>)
    requires ExtraLinks(rom, opcode, vars).Ok?
    ensures var e := ExtraLinks(rom, opcode, vars).value;
            && e.pos == FromBE(vars) && e.opcode == opcode
            && 0 <= e.pos && ExtraEnd(e) - 2 <= |rom|
            && |e.ptrs| == FromBE(rom[e.pos..e.pos + 2]) + 1
            && e.bytes == rom[e.pos..if ExtraEnd(e) < |rom| then ExtraEnd(e) else |rom|]
            && forall k :: 0 <= k < |e.ptrs| ==> e.ptrs[k] == FromBE(rom[e.pos + 4 + 8 * k..e.pos + 8 + 8 * k])
  {
    var e := ExtraLinks(rom, opcode, vars).value;
    assert rom[e.pos..e.pos + 2] == [rom[e.pos], rom[e.pos + 1]];
    Pointers.FromBE2(rom[e.pos], rom[e.pos + 1]);
    LinkPtrsAt(rom, e.pos + 2, |e.ptrs|);
    var last := |e.ptrs| - 1;
    assert e.pos + 2 + 6 + 8 * last <= |rom|;
  }

  // ---------------------------------------------------------------------
  // The walk

  /** One decoded instruction of a walk: its address, the instruction under
      the name it is recorded with, and the link table it refers to. */
  datatype Step = Step(addr: int, ins: Instr, extra: Option<Extra>)

  /** An exit or a jump ends a walk; an exit inside a menu is recorded as a
      menu exit and does not. */
  predicate Ends(name: OpName) {
    name == OpExit || name == OpJump
  }

  /** The link table of a call to 0x7184, if `ins` is one. */
  function ExtraOf(rom: seq<byte>, id: int, ins: Instr): Result<Option<Extra>, Fault> {
    if ins.data.CallData? && ins.data.target == LinkTableCall then
      var e :- ExtraLinks(rom, id, ins.data.vars);
      Ok(Some(e))
    else Ok(None)
  }

  /** `Util.opcodeDec` at `offset`, followed by `script_ExtraFor7184` when
      the instruction calls 0x7184; `id` is the id the instruction gets. */
  function DecodeAt(rom: seq<byte>, table: seq<OpInfo>, exportTable: ExportTable, offset: int, id: int): Result<(Instr, Option<Extra>), Fault>
    requires |table| >= TextThreshold
  {
    var ins :- Decode(rom, table, exportTable, offset);
    var extra :- ExtraOf(rom, id, ins);
    Ok((ins, extra))
  }

  /** The decoder of one image, opcode table and character table, as a
      function of the address and the id the instruction gets. */
  type Decoder = (int, int) -> Result<(Instr, Option<Extra>), Fault>

  /** Decoding an instruction never moves the cursor backwards. */
  ghost predicate Advancing(dec: Decoder) {
    forall o, id :: dec(o, id).Ok? ==> dec(o, id).value.0.next >= o
  }

  function DecoderOf(rom: seq<byte>, table: seq<OpInfo>, exportTable: ExportTable): (dec: Decoder)
    requires |table| >= TextThreshold
    ensures Advancing(dec)
  {
    DecoderAdvances(rom, table, exportTable);
    (o, id) => DecodeAt(rom, table, exportTable, o, id)
  }

  lemma DecoderAdvances(rom: seq<byte>, table: seq<OpInfo>, exportTable: ExportTable)
    requires |table| >= TextThreshold
    ensures forall o, id :: DecodeAt(rom, table, exportTable, o, id).Ok? ==> DecodeAt(rom, table, exportTable, o, id).value.0.next >= o
  {
    forall o, id | DecodeAt(rom, table, exportTable, o, id).Ok?
      ensures DecodeAt(rom, table, exportTable, o, id).value.0.next >= o
    {
      DecodeAdvances(rom, table, exportTable, o);
    }
  }

  /** Decodes the instruction at `offset` with the menu flag `menu`: a menu
      creation raises the flag, and an exit while it is raised lowers it and
      is renamed to a menu exit. Returns the step and the new flag. */
  function StepAt(dec: Decoder, offset: int, menu: bool, id: int): Result<(Step, bool), Fault>
    requires Advancing(dec)
  {
    var (ins, extra) :- dec(offset, id);
    var open := menu || ins.name == OpMenuCreate;
    var closes := ins.name == OpExit && open;
    Ok((Step(offset, if closes then ins.(name := OpMenuExit) else ins, extra), open && !closes))
  }

  lemma StepAdvances(dec: Decoder, offset: int, menu: bool, id: int)
    requires Advancing(dec)
    requires StepAt(dec, offset, menu, id).Ok?
    ensures var s := StepAt(dec, offset, menu, id).value.0;
            s.addr == offset && s.ins.next >= offset
  {
  }

  /** The instructions a walk from `offset` decodes, given the addresses
      `decoded` before it, and the address where it stops. */
  function Steps(dec: Decoder, decoded: set<int>,
                 offset: int, menu: bool, id: int): Result<(seq<Step>, int), Fault>
    requires Advancing(dec)
    decreases RomSize - offset, if offset in decoded then 0 else 1
  {
    if offset >= RomSize || offset in decoded then Ok(([], offset))
    else
      var s :- StepAt(dec, offset, menu, id);
      StepAdvances(dec, offset, menu, id);
      var step := s.0;
      if Ends(step.ins.name) then Ok(([step], step.ins.next))
      else
        var rest :- Steps(dec, decoded + {offset}, step.ins.next, s.1, id + 1);
        Ok(([step] + rest.0, rest.1))
  }

  /** The walk decodes consecutive instructions: the first at `offset`,
      each next one where the previous one ends, and it stops where the last
      one ends. */
  predicate Chained(steps: seq<Step>, offset: int, final: int) {
    && (|steps| == 0 ==> final == offset)
    && (|steps| > 0 ==> steps[0].addr == offset && final == steps[|steps| - 1].ins.next)
    && forall i :: 0 <= i < |steps| - 1 ==> steps[i + 1].addr == steps[i].ins.next
  }

  /** No instruction is decoded twice, none past the end of the image, and
      addresses only grow. */
  predicate FreshAscending(steps: seq<Step>, decoded: set<int>) {
    && (forall i :: 0 <= i < |steps| ==> steps[i].addr !in decoded && steps[i].addr < RomSize)
    && (forall i, j :: 0 <= i < j < |steps| ==> steps[i].addr < steps[j].addr)
  }

  /** Only the last instruction may be an exit or a jump; the walk stops at
      one of those, at the end of the image, or at an address decoded
      before. */
  predicate Stops(steps: seq<Step>, decoded: set<int>, final: int) {
    && (forall i :: 0 <= i < |steps| - 1 ==> !Ends(steps[i].ins.name))
    && ((|steps| > 0 && Ends(steps[|steps| - 1].ins.name)) || final >= RomSize || final in decoded
        || exists i :: 0 <= i < |steps| && steps[i].addr == final)
  }

  predicate WalkShape(steps: seq<Step>, decoded: set<int>, offset: int, final: int) {
    Chained(steps, offset, final) && FreshAscending(steps, decoded) && Stops(steps, decoded, final)
  }

  lemma ShapeCons(s0: Step, rest: seq<Step>, decoded: set<int>, final: int)
    requires s0.addr < RomSize && s0.addr !in decoded && s0.ins.next >= s0.addr && !Ends(s0.ins.name)
    requires WalkShape(rest, decoded + {s0.addr}, s0.ins.next, final)
    ensures WalkShape([s0] + rest, decoded, s0.addr, final)
  {
    var steps := [s0] + rest;
    assert forall i :: 0 < i < |steps| ==> steps[i] == rest[i - 1];
    forall i | 0 < i < |steps|
      ensures steps[0].addr < steps[i].addr
    {
      if i > 1 {
        assert rest[0].addr < rest[i - 1].addr;
      }
    }
    if final in decoded + {s0.addr} && final !in decoded {
      assert steps[0].addr == final;
    }
    if exists i :: 0 <= i < |rest| && rest[i].addr == final {
      var i :| 0 <= i < |rest| && rest[i].addr == final;
      assert steps[i + 1].addr == final;
    }
  }

  /** A walk that succeeds has the shape of `WalkShape`. */
  lemma {:induction false} StepsShape(dec: Decoder, decoded: set<int>,
                                      offset: int, menu: bool, id: int)
    requires Advancing(dec)
    requires Steps(dec, decoded, offset, menu, id).Ok?
    ensures var w := Steps(dec, decoded, offset, menu, id).value;
            WalkShape(w.0, decoded, offset, w.1)
    decreases RomSize - offset, if offset in decoded then 0 else 1
  {
    if offset >= RomSize || offset in decoded {
      return;
    }
    StepsUnfold(dec, decoded, offset, menu, id);
    StepAdvances(dec, offset, menu, id);
    var sm := StepAt(dec, offset, menu, id).value;
    if !Ends(sm.0.ins.name) {
      var next := sm.0.ins.next;
      StepsShape(dec, decoded + {offset}, next, sm.1, id + 1);
      var rest := Steps(dec, decoded + {offset}, next, sm.1, id + 1).value;
      ShapeCons(sm.0, rest.0, decoded, rest.1);
    }
  }

  // ---------------------------------------------------------------------
  // What the exporter records

  /** The exporter's tables: decoded addresses with their instruction id
      and length, the next instruction id, the instruction rows, the texts
      to translate, the jump and call targets with the addresses that reach
      them, the tables queued for a later walk, the link tables, and the used
      addresses in the order they were added. */
  datatype ExportState = ExportState(
    opcodePtrs: map<int, PtrEntry>, opCount: int, rows: seq<OpRecord>, texts: seq<(int, string)>,
    subs: map<int, seq<int>>, queued: seq<int>, extras: seq<Extra>, used: seq<int>)

  /** `s.uniq`: the first occurrence of each element, in order. */
  function Uniq(s: seq<int>): seq<int>
    decreases |s|
  {
    if |s| == 0 then []
    else
      var u := Uniq(s[..|s| - 1]);
      if s[|s| - 1] in u then u else u + [s[|s| - 1]]
  }

  /** `a | b`. */
  function Union(a: seq<int>, b: seq<int>): seq<int> {
    Uniq(a + b)
  }

  /** `(lo..hi).to_a`. */
  function Span(lo: int, hi: int): seq<int> {
    if hi < lo then [] else seq(hi - lo + 1, i => lo + i)
  }

  lemma SpanHas(lo: int, hi: int, x: int)
    ensures x in Span(lo, hi) <==> lo <= x <= hi
  {
    if lo <= x <= hi {
      assert Span(lo, hi)[x - lo] == x;
    }
  }

  /** `script_JumpGosub`: the first jump to a target queues a table for it. */
  function AddSub(st: ExportState, target: int, from: int): ExportState {
    if target !in st.subs then st.(subs := st.subs[target := [from]], queued := st.queued + [target])
    else st.(subs := st.subs[target := st.subs[target] + [from]])
  }

  /** `script_ExtraFor7184`: every link is queued for a later walk, and the
      table's bytes count as used. */
  function AddExtra(st: ExportState, e: Extra): ExportState {
    st.(queued := st.queued + e.ptrs, extras := st.extras + [e], used := Union(st.used, Span(e.pos, ExtraEnd(e) - 1)))
  }

  /** The instruction's address, id and length enter `opcodePtrs`. */
  function AddPtr(st: ExportState, step: Step): ExportState {
    st.(opcodePtrs := st.opcodePtrs[step.addr := PtrEntry(st.opCount, step.ins.next - step.addr)])
  }

  /** `script_Text`: a text instruction's string is kept for translation. */
  function AddText(st: ExportState, step: Step): ExportState {
    if step.ins.name == OpText && step.ins.data.TextData? then st.(texts := st.texts + [(step.addr, step.ins.data.text)]) else st
  }

  /** `script_populate_tOpcodes`: the row of the instruction, under the next id. */
  function AddRow(st: ExportState, step: Step, isScript: bool, lineWidth: int): ExportState {
    st.(rows := st.rows + [RecordOf(st.opCount, step.addr, step.ins, isScript, lineWidth)], opCount := st.opCount + 1)
  }

  /** Everything recorded for one decoded instruction, in the order the
      handlers run. */
  function Record(st: ExportState, step: Step, isScript: bool, lineWidth: int): ExportState {
    var ins := step.ins;
    var st1 := AddPtr(st, step);
    var st2 := if (ins.name == OpJump || ins.name == OpGosub) && ins.data.JumpData? then AddSub(st1, ins.data.target, step.addr) else st1;
    var st3 := if step.extra.Some? then AddExtra(st2, step.extra.value) else st2;
    AddRow(AddText(st3, step), step, isScript, lineWidth)
  }

  function RecordAll(st: ExportState, steps: seq<Step>, isScript: bool, lineWidth: int): ExportState
    decreases |steps|
  {
    if |steps| == 0 then st
    else Record(RecordAll(st, steps[..|steps| - 1], isScript, lineWidth), steps[|steps| - 1], isScript, lineWidth)
  }

  /** After the walk, the bytes from the script address up to and including
      the address where it stopped count as used. */
  function Finish(st: ExportState, scriptAddr: int, final: int): ExportState {
    if final != scriptAddr then st.(used := Union(st.used, Span(scriptAddr, final))) else st
  }

  function ResumeSteps(done: seq<Step>, r: Result<(seq<Step>, int), Fault>): Result<(seq<Step>, int), Fault> {
    if r.Ok? then Ok((done + r.value.0, r.value.1)) else r
  }

  lemma ResumeStepsAssoc(a: seq<Step>, b: seq<Step>, r: Result<(seq<Step>, int), Fault>)
    ensures ResumeSteps(a, ResumeSteps(b, r)) == ResumeSteps(a + b, r)
  {
    if r.Ok? {
      assert a + (b + r.value.0) == (a + b) + r.value.0;
    }
  }

  /** `Steps` unfolded once at an address that is still to be decoded. */
  lemma StepsUnfold(dec: Decoder, decoded: set<int>,
                    offset: int, menu: bool, id: int)
    requires Advancing(dec)
    requires offset < RomSize && offset !in decoded
    ensures var s := StepAt(dec, offset, menu, id);
            Steps(dec, decoded, offset, menu, id)
            == if s.Err? then Err(s.error)
               else if Ends(s.value.0.ins.name) then Ok(([s.value.0], s.value.0.ins.next))
               else ResumeSteps([s.value.0], Steps(dec, decoded + {offset}, s.value.0.ins.next, s.value.1, id + 1))
  {
  }

  /** `walk` is what a walk that has already decoded `done` produces once
      it resumes at `current`. */
  predicate Walking(dec: Decoder, walk: Result<(seq<Step>, int), Fault>,
                    done: seq<Step>, decoded: set<int>, current: int, menu: bool, id: int)
    requires Advancing(dec)
  {
    walk == ResumeSteps(done, Steps(dec, decoded, current, menu, id))
  }

  lemma WalkStart(dec: Decoder, decoded: set<int>, offset: int, id: int)
    requires Advancing(dec)
    ensures Walking(dec, Steps(dec, decoded, offset, false, id), [], decoded, offset, false, id)
  {
    var walk := Steps(dec, decoded, offset, false, id);
    if walk.Ok? {
      assert [] + walk.value.0 == walk.value.0;
    }
  }

  lemma WalkStop(dec: Decoder, walk: Result<(seq<Step>, int), Fault>,
                 done: seq<Step>, decoded: set<int>, current: int, menu: bool, id: int)
    requires Advancing(dec)
    requires Walking(dec, walk, done, decoded, current, menu, id)
    requires current >= RomSize || current in decoded
    ensures walk == Ok((done, current))
  {
    assert done + [] == done;
  }

  lemma WalkFails(dec: Decoder, walk: Result<(seq<Step>, int), Fault>,
                  done: seq<Step>, decoded: set<int>, current: int, menu: bool, id: int)
    requires Advancing(dec)
    requires Walking(dec, walk, done, decoded, current, menu, id)
    requires current < RomSize && current !in decoded
    requires StepAt(dec, current, menu, id).Err?
    ensures walk.Err?
  {
    StepsUnfold(dec, decoded, current, menu, id);
  }

  lemma WalkOn(dec: Decoder, walk: Result<(seq<Step>, int), Fault>,
               done: seq<Step>, decoded: set<int>, current: int, menu: bool, id: int)
    requires Advancing(dec)
    requires Walking(dec, walk, done, decoded, current, menu, id)
    requires current < RomSize && current !in decoded
    requires StepAt(dec, current, menu, id).Ok?
    ensures var s := StepAt(dec, current, menu, id).value;
            if Ends(s.0.ins.name) then walk == Ok((done + [s.0], s.0.ins.next))
            else Walking(dec, walk, done + [s.0], decoded + {current}, s.0.ins.next, s.1, id + 1)
  {
    var s := StepAt(dec, current, menu, id).value;
    StepsUnfold(dec, decoded, current, menu, id);
    ResumeStepsAssoc(done, [s.0], Steps(dec, decoded + {current}, s.0.ins.next, s.1, id + 1));
  }

  lemma RecordAllPush(st: ExportState, done: seq<Step>, step: Step, isScript: bool, lineWidth: int)
    ensures RecordAll(st, done + [step], isScript, lineWidth) == Record(RecordAll(st, done, isScript, lineWidth), step, isScript, lineWidth)
  {
    assert (done + [step])[..|done|] == done;
  }

  /** Recording an instruction adds its address to the decoded addresses
      and takes the next id. */
  lemma RecordKeys(st: ExportState, step: Step, isScript: bool, lineWidth: int)
    ensures Record(st, step, isScript, lineWidth).opcodePtrs.Keys == st.opcodePtrs.Keys + {step.addr}
    ensures Record(st, step, isScript, lineWidth).opCount == st.opCount + 1
  {
    assert AddPtr(st, step).opcodePtrs.Keys == st.opcodePtrs.Keys + {step.addr};
  }

  /** After one more instruction `sm` at `current`, the state `st` holds
      the walk so far recorded on top of `st0`, and the walk `walk` either
      ended with it or resumes after it. */
  predicate Turned(dec: Decoder, walk: Result<(seq<Step>, int), Fault>,
                   done: seq<Step>, st0: ExportState, current: int, sm: (Step, bool), st: ExportState,
                   isScript: bool, lineWidth: int)
    requires Advancing(dec)
  {
    var step := sm.0;
    && st == RecordAll(st0, done + [step], isScript, lineWidth)
    && current in st.opcodePtrs && step.ins.next >= current
    && (Ends(step.ins.name) ==> walk == Ok((done + [step], step.ins.next)))
    && (!Ends(step.ins.name) ==> Walking(dec, walk, done + [step], st.opcodePtrs.Keys, step.ins.next, sm.1, st.opCount))
  }

  lemma WalkTurn(dec: Decoder, walk: Result<(seq<Step>, int), Fault>,
                 done: seq<Step>, st0: ExportState, before: ExportState, current: int, menu: bool,
                 isScript: bool, lineWidth: int)
    requires Advancing(dec)
    requires current < RomSize && current !in before.opcodePtrs
    requires Walking(dec, walk, done, before.opcodePtrs.Keys, current, menu, before.opCount)
    requires before == RecordAll(st0, done, isScript, lineWidth)
    requires StepAt(dec, current, menu, before.opCount).Ok?
    ensures var sm := StepAt(dec, current, menu, before.opCount).value;
            Turned(dec, walk, done, st0, current, sm, Record(before, sm.0, isScript, lineWidth), isScript, lineWidth)
  {
    var sm := StepAt(dec, current, menu, before.opCount).value;
    StepAdvances(dec, current, menu, before.opCount);
    WalkOn(dec, walk, done, before.opcodePtrs.Keys, current, menu, before.opCount);
    TurnState(st0, done, before, sm.0, isScript, lineWidth);
  }

  /** The state after recording one more instruction. */
  lemma TurnState(st0: ExportState, done: seq<Step>, before: ExportState, step: Step, isScript: bool, lineWidth: int)
    requires before == RecordAll(st0, done, isScript, lineWidth)
    ensures var after := Record(before, step, isScript, lineWidth);
            && after == RecordAll(st0, done + [step], isScript, lineWidth)
            && after.opcodePtrs.Keys == before.opcodePtrs.Keys + {step.addr}
            && after.opCount == before.opCount + 1
  {
    RecordAllPush(st0, done, step, isScript, lineWidth);
    RecordKeys(before, step, isScript, lineWidth);
  }

  /** The name of each instruction id, as the instruction rows store it. */
  function NameTable(rows: seq<OpRecord>): map<int, OpName>
    decreases |rows|
  {
    if |rows| == 0 then map[]
    else NameTable(rows[..|rows| - 1])[rows[|rows| - 1].id := rows[|rows| - 1].name]
  }

  /** Every decoded address has a row under its id. */
  predicate Named(st: ExportState) {
    forall a :: a in st.opcodePtrs ==> st.opcodePtrs[a].id in NameTable(st.rows)
  }

  /** Recording an instruction adds one row and one decoded address. */
  lemma RecordRowsPtrs(st: ExportState, step: Step, isScript: bool, lineWidth: int)
    ensures Record(st, step, isScript, lineWidth).rows == st.rows + [RecordOf(st.opCount, step.addr, step.ins, isScript, lineWidth)]
    ensures Record(st, step, isScript, lineWidth).opcodePtrs == st.opcodePtrs[step.addr := PtrEntry(st.opCount, step.ins.next - step.addr)]
  {
  }

  lemma RecordNamed(st: ExportState, step: Step, isScript: bool, lineWidth: int)
    requires Named(st)
    ensures Named(Record(st, step, isScript, lineWidth))
  {
    var after := Record(st, step, isScript, lineWidth);
    RecordRowsPtrs(st, step, isScript, lineWidth);
    assert after.rows[..|after.rows| - 1] == st.rows;
    assert NameTable(after.rows) == NameTable(st.rows)[st.opCount := step.ins.name];
  }

  /** Recording a walk keeps every decoded address named. */
  lemma {:induction false} RecordAllNamed(st: ExportState, steps: seq<Step>, isScript: bool, lineWidth: int)
    requires Named(st)
    ensures Named(RecordAll(st, steps, isScript, lineWidth))
    decreases |steps|
  {
    if |steps| > 0 {
      RecordAllNamed(st, steps[..|steps| - 1], isScript, lineWidth);
      RecordNamed(RecordAll(st, steps[..|steps| - 1], isScript, lineWidth), steps[|steps| - 1], isScript, lineWidth);
    }
  }

  /** Marking bytes as used leaves the decoded addresses and rows alone. */
  lemma FinishNamed(st: ExportState, scriptAddr: int, final: int)
    requires Named(st)
    ensures Named(Finish(st, scriptAddr, final))
  {
  }

  /** Once every decoded address is named, numbering the groups in address
      order cannot fail. */
  lemma NamedGroups(st: ExportState)
    requires Named(st)
    ensures GroupIds(SortedSeq(st.opcodePtrs.Keys), st.opcodePtrs, NameTable(st.rows), 0).Ok?
  {
    var order := SortedSeq(st.opcodePtrs.Keys);
    GroupIdsAt(order, st.opcodePtrs, NameTable(st.rows), 0);
  }

  /** The exporter: the tables of `ExportState` as fields, and the group of
      every decoded address once groups are assigned. */
  class Exporter {
    var opcodePtrs: map<int, PtrEntry>
    var opCount: int
    var rows: seq<OpRecord>
    var texts: seq<(int, string)>
    var subs: map<int, seq<int>>
    var queued: seq<int>
    var extras: seq<Extra>
    var used: seq<int>
    var groupOf: map<int, int>

    function State(): ExportState
      reads this
    {
      ExportState(opcodePtrs, opCount, rows, texts, subs, queued, extras, used)
    }

    constructor()
      ensures State() == ExportState(map[], 0, [], [], map[], [], [], []) && groupOf == map[]
    {
      opcodePtrs := map[];
      opCount := 0;
      rows := [];
      texts := [];
      subs := map[];
      queued := [];
      extras := [];
      used := [];
      groupOf := map[];
    }

    /** `script_JumpGosub`. */
    method RecordJump(target: int, from: int)
      modifies this
      ensures State() == AddSub(old(State()), target, from)
      ensures groupOf == old(groupOf)
    {
      if target !in subs {
        subs := subs[target := [from]];
        queued := queued + [target];
      } else {
        subs := subs[target := subs[target] + [from]];
      }
    }

    /** `script_ExtraFor7184`, once the table is read. */
    method RecordExtra(e: Extra)
      modifies this
      ensures State() == AddExtra(old(State()), e)
      ensures groupOf == old(groupOf)
    {
      queued := queued + e.ptrs;
      extras := extras + [e];
      used := Union(used, Span(e.pos, ExtraEnd(e) - 1));
    }

    method RecordPtr(step: Step)
      modifies this
      ensures State() == AddPtr(old(State()), step)
      ensures groupOf == old(groupOf)
    {
      opcodePtrs := opcodePtrs[step.addr := PtrEntry(opCount, step.ins.next - step.addr)];
    }

    method RecordText(step: Step)
      modifies this
      ensures State() == AddText(old(State()), step)
      ensures groupOf == old(groupOf)
    {
      if step.ins.name == OpText && step.ins.data.TextData? {
        texts := texts + [(step.addr, step.ins.data.text)];
      }
    }

    method RecordRow(step: Step, isScript: bool, lineWidth: int)
      modifies this
      ensures State() == AddRow(old(State()), step, isScript, lineWidth)
      ensures groupOf == old(groupOf)
    {
      rows := rows + [RecordOf(opCount, step.addr, step.ins, isScript, lineWidth)];
      opCount := opCount + 1;
    }

    /** The handlers of one decoded instruction and
        `script_populate_tOpcodes`. */
    method RecordStep(step: Step, isScript: bool, lineWidth: int)
      modifies this
      ensures State() == Record(old(State()), step, isScript, lineWidth)
      ensures groupOf == old(groupOf)
    {
      var ins := step.ins;
      RecordPtr(step);
      if (ins.name == OpJump || ins.name == OpGosub) && ins.data.JumpData? {
        RecordJump(ins.data.target, step.addr);
      }
      if step.extra.Some? {
        RecordExtra(step.extra.value);
      }
      RecordText(step);
      RecordRow(step, isScript, lineWidth);
    }

    /** The body of the walk for one address: decode, read a link table for
        a call to 0x7184, and track the menu flag. */
    method DecodeStep(rom: seq<byte>, table: seq<OpInfo>, exportTable: ExportTable, offset: int, menu: bool)
      returns (r: Result<(Step, bool), Fault>)
      requires |table| >= TextThreshold
      ensures r == StepAt(DecoderOf(rom, table, exportTable), offset, menu, opCount)
    {
      var decoded := OpcodeDec(rom, table, exportTable, offset);
      if decoded.Err? {
        return Err(decoded.error);
      }
      var ins := decoded.value;
      var extra: Option<Extra> := None;
      if ins.data.CallData? && ins.data.target == LinkTableCall {
        var e := ExtraFor7184(rom, opCount, ins.data.vars);
        if e.Err? {
          return Err(e.error);
        }
        extra := Some(e.value);
      }
      var open := menu;
      if ins.name == OpMenuCreate {
        open := true;
      }
      if ins.name == OpExit && open {
        open := false;
        ins := ins.(name := OpMenuExit);
      }
      return Ok((Step(offset, ins, extra), open));
    }

    /** One turn of the walk: decode the instruction at `current` and, when
        that succeeds, record it; the walk `walk` has so far recorded `done`
        on top of `st0`. */
    method Advance(rom: seq<byte>, table: seq<OpInfo>, exportTable: ExportTable, current: int, menu: bool,
                   isScript: bool, lineWidth: int, ghost walk: Result<(seq<Step>, int), Fault>,
                   ghost done: seq<Step>, ghost st0: ExportState) returns (s: Result<(Step, bool), Fault>)
      requires |table| >= TextThreshold
      requires current < RomSize && current !in opcodePtrs
      requires Walking(DecoderOf(rom, table, exportTable), walk, done, opcodePtrs.Keys, current, menu, opCount)
      requires State() == RecordAll(st0, done, isScript, lineWidth)
      modifies this
      ensures groupOf == old(groupOf)
      ensures s.Err? ==> walk.Err?
      ensures s.Ok? ==> Turned(DecoderOf(rom, table, exportTable), walk, done, st0, current, s.value, State(), isScript, lineWidth)
      ensures s.Ok? ==> current in opcodePtrs && s.value.0.ins.next >= current
    {
      s := DecodeStep(rom, table, exportTable, current, menu);
      if s.Err? {
        WalkFails(DecoderOf(rom, table, exportTable), walk, done, opcodePtrs.Keys, current, menu, opCount);
        return;
      }
      WalkTurn(DecoderOf(rom, table, exportTable), walk, done, st0, State(), current, menu, isScript, lineWidth);
      RecordStep(s.value.0, isScript, lineWidth);
    }

    /** The loop of `processScript`: records every instruction of the walk
        from `scriptAddr`, which produces `walk`, and returns the address
        where it stopped. */
    method WalkScript(rom: seq<byte>, table: seq<OpInfo>, exportTable: ExportTable, scriptAddr: int,
                      isScript: bool, lineWidth: int, ghost walk: Result<(seq<Step>, int), Fault>) returns (r: Result<int, Fault>)
      requires |table| >= TextThreshold
      requires Walking(DecoderOf(rom, table, exportTable), walk, [], opcodePtrs.Keys, scriptAddr, false, opCount)
      modifies this
      ensures groupOf == old(groupOf)
      ensures (r.Ok? <==> walk.Ok?)
              && (r.Ok? ==> r.value == walk.value.1 && State() == RecordAll(old(State()), walk.value.0, isScript, lineWidth))
    {
      var current := scriptAddr;
      var menu := false;
      ghost var done: seq<Step> := [];
      ghost var ended := false;
      while current < RomSize
        invariant !ended
        invariant State() == RecordAll(old(State()), done, isScript, lineWidth)
        invariant Walking(DecoderOf(rom, table, exportTable), walk, done, opcodePtrs.Keys, current, menu, opCount)
        invariant groupOf == old(groupOf)
        decreases RomSize - current, if current in opcodePtrs then 0 else 1
      {
        if current in opcodePtrs {
          break;
        }
        var s := Advance(rom, table, exportTable, current, menu, isScript, lineWidth, walk, done, old(State()));
        if s.Err? {
          return Err(s.error);
        }
        var step := s.value.0;
        ghost var prev := current;
        done := done + [step];
        current := step.ins.next;
        menu := s.value.1;
        if Ends(step.ins.name) {
          ended := true;
          break;
        }
        assert prev in opcodePtrs;
        assert current >= prev;
        assert current > prev || current in opcodePtrs;
      }
      if !ended {
        WalkStop(DecoderOf(rom, table, exportTable), walk, done, opcodePtrs.Keys, current, menu, opCount);
      }
      return Ok(current);
    }

    /** `processScript`: walks the script at `scriptAddr`, marks the bytes
        it covered as used, and returns the address where the walk stopped. */
    method ProcessScript(rom: seq<byte>, table: seq<OpInfo>, exportTable: ExportTable, scriptAddr: int,
                         isScript: bool, lineWidth: int) returns (r: Result<int, Fault>)
      requires |table| >= TextThreshold
      modifies this
      ensures groupOf == old(groupOf)
      ensures var w := Steps(DecoderOf(rom, table, exportTable), old(opcodePtrs).Keys, scriptAddr, false, old(opCount));
              && (r.Ok? <==> w.Ok?)
              && (r.Ok? ==> r.value == w.value.1 &&
                            State() == Finish(RecordAll(old(State()), w.value.0, isScript, lineWidth), scriptAddr, w.value.1))
    {
      WalkStart(DecoderOf(rom, table, exportTable), opcodePtrs.Keys, scriptAddr, opCount);
      r := WalkScript(rom, table, exportTable, scriptAddr, isScript, lineWidth,
                      Steps(DecoderOf(rom, table, exportTable), opcodePtrs.Keys, scriptAddr, false, opCount));
      if r.Ok? && r.value != scriptAddr {
        used := Union(used, Span(scriptAddr, r.value));
      }
    }

    /** `assignGroups_populateHash`: numbers the decoded instructions in
        address order, starting at 0, adding 2 after an instruction with no
        instruction right behind it and 1 after an exit or a jump. Returns the
        number after the last instruction. */
    method AssignGroups() returns (r: Result<int, Fault>)
      modifies this
      ensures State() == old(State())
      ensures var order := SortedSeq(opcodePtrs.Keys);
              var g := GroupIds(order, opcodePtrs, NameTable(rows), 0);
              && (r.Ok? <==> g.Ok?)
              && (r.Ok? ==> r.value == g.value.1 && groupOf == ZipMap(order, g.value.0))
    {
      var numbered := NumberGroups(opcodePtrs, NameTable(rows));
      if numbered.Err? {
        return Err(numbered.error);
      }
      groupOf := numbered.value.0;
      return Ok(numbered.value.1);
    }
  }

  /** `assignGroups_populateHash` without the object: the group of each
      decoded address, in increasing address order, and the number after the
      last one. */
  method NumberGroups(ptrs: map<int, PtrEntry>, names: map<int, OpName>)
    returns (r: Result<(map<int, int>, int), Fault>)
    ensures var order := SortedSeq(ptrs.Keys);
            var g := GroupIds(order, ptrs, names, 0);
            && (r.Ok? <==> g.Ok?)
            && (r.Ok? ==> r.value == (ZipMap(order, g.value.0), g.value.1))
  {
    var order := SortAddrs(ptrs.Keys);
    r := NumberFrom(order, ptrs, names);
  }

  /** The loop of `assignGroups_populateHash` over the addresses `order`,
      with a running group number. */
  method NumberFrom(order: seq<int>, ptrs: map<int, PtrEntry>, names: map<int, OpName>)
    returns (r: Result<(map<int, int>, int), Fault>)
    requires forall i :: 0 <= i < |order| ==> order[i] in ptrs
    ensures var g := GroupIds(order, ptrs, names, 0);
            && (r.Ok? <==> g.Ok?)
            && (r.Ok? ==> r.value == (ZipMap(order, g.value.0), g.value.1))
  {
    var groupOf := map[];
    var groupId := 0;
    var i := 0;
    ghost var acc: seq<int> := [];
    IdsStart(order, ptrs, names);
    while i < |order|
      invariant 0 <= i <= |order| && |acc| == i
      invariant GroupIds(order, ptrs, names, 0) == ResumeIds(acc, GroupIds(order[i..], ptrs, names, groupId))
      invariant groupOf == ZipMap(order[..i], acc)
    {
      var addr := order[i];
      var id := ptrs[addr].id;
      IdsStep(order, ptrs, names, i, groupId, acc);
      if id !in names {
        return Err(UnknownOpcode(id));
      }
      assert order[..i + 1][..i] == order[..i] && (acc + [groupId])[..i] == acc;
      var next := groupId + GroupStep(addr, ptrs, NameAt(addr, ptrs, names));
      assert GroupIds(order, ptrs, names, 0) == ResumeIds(acc + [groupId], GroupIds(order[i + 1..], ptrs, names, next));
      groupOf := groupOf[addr := groupId];
      acc := acc + [groupId];
      groupId := next;
      i := i + 1;
    }
    IdsEnd(order, ptrs, names, groupId, acc);
    assert order[..i] == order;
    return Ok((groupOf, groupId));
  }
}
