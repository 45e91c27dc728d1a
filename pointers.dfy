/** The pointer resolver: the four pointer encodings of the pointer tables,
    how they are read back from the ROM (`refDirectPointer`, `refRelPointer`,
    `refRelCurPointer`, `dereferenceTable`, `getScriptAddr` in
    Ruby/main.rb) and how a new destination is encoded
    (`Util.calculatePtr` in Ruby/util.rb). */
module Pointers {
  import opened Wrappers
  import opened Bytes

  /** The one-letter pointer kinds of the pointer-table descriptions. */
  datatype PtrKind =
    | Direct             // 'd': absolute 4-byte big-endian address
    | NoPtr              // 's': no pointer, the entry itself is the target
    | Rel                // 'r': signed 16-bit offset from the table base
    | RelMsb             // 'n': 15-bit offset from the table base, top bit a flag
    | RelCur             // 'f': 16-bit offset from the pointer's own address
    | Other(letter: char) // any other letter

  /** The kind a letter names. */
  function KindOf(letter: char): PtrKind {
    match letter
    case 'd' => Direct
    case 's' => NoPtr
    case 'r' => Rel
    case 'n' => RelMsb
    case 'f' => RelCur
    case _ => Other(letter)
  }

  /** The kind a whole column names: `calculatePtr` compares the column
      with each letter, so anything longer than one letter names none. */
  function KindOfText(column: string): PtrKind {
    if |column| == 1 then KindOf(column[0]) else Other(' ')
  }

  /** The `structure` column: entry stride, entry pointer kind and the
      numbers after them (sub-table sizes used by the special handlers). */
  datatype Structure = Structure(stride: int, kind: PtrKind, extra: seq<int>)

  datatype Special = NoSpecial | Special1 | Special2 | Special3 | LeaTable

  /** One pointer-table description. `tablePtr` holds every address listed
      in the `tableptr` column; reading it as a number takes the first. */
  datatype TableSpec = TableSpec(
    tablePtr: seq<int>,
    ptrType: PtrKind,
    structure: Structure,
    count: int,
    special: Special,
    lineWidth: int,
    bounds: Option<(int, int)>,
    parseOnly: bool)

  /** `"0x..".to_i(16)` of the `tableptr` column: its first address. */
  function TablePtrValue(t: TableSpec): int {
    if |t.tablePtr| > 0 then t.tablePtr[0] else 0
  }

  /** `n` bytes of the ROM at `addr`; a read beyond the image is a fault. */
  function ReadBytes(rom: seq<int>, addr: int, n: nat): Result<seq<int>, Fault> {
    if 0 <= addr && addr + n <= |rom| then Ok(rom[addr..addr + n]) else Err(ReadPastEnd(addr))
  }

  // ---------------------------------------------------------------------
  // Dereferencing

  /** The 4-byte big-endian address stored at `addr`. */
  function RefDirectPointer(rom: seq<int>, addr: int): Result<int, Fault> {
    var b :- ReadBytes(rom, addr, 4);
    Ok(FromBE(b))
  }

  /** A 16-bit offset from `base`. Without `msb` the offset is signed; with
      it, a set top bit is taken off and reported as the flag instead. */
  function RefRelPointer(rom: seq<int>, base: int, addr: int, msb: bool): Result<(int, bool), Fault> {
    var b :- ReadBytes(rom, addr, 2);
    var flagged := b[0] >= 0x80 && msb;
    var hi := if flagged then b[0] - 0x80 else b[0];
    var res := base + FromBE([hi, b[1]]);
    Ok((if hi >= 0x80 && !flagged then res - 0x10000 else res, flagged))
  }

  /** An unsigned 16-bit offset from the pointer's own address. */
  function RefRelCurPointer(rom: seq<int>, base: int): Result<int, Fault> {
    var b :- ReadBytes(rom, base, 2);
    Ok(base + FromBE(b))
  }

  /** Resolves the `tableptr` column to the table's base address. */
  function DereferenceTable(rom: seq<int>, t: TableSpec): (r: Result<int, Fault>)
    ensures t.ptrType == NoPtr ==> r == Ok(TablePtrValue(t))
    ensures !(t.ptrType in {Direct, Rel, NoPtr}) ==> r == Err(WrongPointerType)
  {
    var at := TablePtrValue(t);
    match t.ptrType
    case Direct => RefDirectPointer(rom, at)
    case Rel =>
      var p :- RefRelPointer(rom, at, at, false);
      Ok(p.0)
    case NoPtr => Ok(at)
    case _ => Err(WrongPointerType)
  }

  // ---------------------------------------------------------------------
  // Encoding

  /** Ruby's `d | 0x8000` on an unbounded two's-complement integer. */
  function OrMsb(d: int, msb: bool): (r: int)
    ensures r < 0 <==> d < 0
    ensures 0 <= d < 0x8000 ==> r == (if msb then d + 0x8000 else d)
  {
    if !msb || (d / 0x8000) % 2 == 1 then d else d + 0x8000
  }

  /** The value and the width (in bytes) of a pointer from `base` to `dst`. */
  function CalculatePtr(dst: int, base: int, kind: PtrKind, msb: bool): (r: Result<(int, int), Fault>)
    ensures kind in {Direct, NoPtr} ==> r == Ok((dst, 4))
    ensures kind in {Rel, RelCur} ==> (r.Ok? <==> -0x8000 <= dst - base <= 0x8000)
    ensures kind == RelMsb ==> (r.Ok? <==> dst - base >= 0)
    ensures r.Ok? && kind in {Rel, RelCur, RelMsb} ==> r.value.1 == 2
    ensures r.Ok? ==> r.value.1 in {2, 4}
    ensures kind.Other? ==> r.Err?
  {
    match kind
    case Direct => Ok((dst, 4))
    case NoPtr => Ok((dst, 4))
    case Rel | RelCur =>
      if dst - base > 0x8000 || dst - base < -0x8000 then Err(InaccessiblePointer(dst, base))
      else Ok((dst - base, 2))
    case RelMsb =>
      var v := OrMsb(dst - base, msb);
      if v < 0 then Err(NegativeOffset(v, dst)) else Ok((v, 2))
    case Other(_) => Err(WrongPointerType)
  }

  // ---------------------------------------------------------------------
  // Round trips: encode with CalculatePtr and NumToBytes, read back.

  lemma FromBE2(x: int, y: int)
    ensures FromBE([x, y]) == 256 * x + y
  {
    var s := [x, y];
    assert s[..|s| - 1] == [x];
    var t := [x];
    assert t[..|t| - 1] == [];
    assert FromBE(t) == 256 * FromBE([]) + x;
  }

  lemma Mod65536Negative(d: int)
    requires -0x8000 <= d < 0
    ensures d % 0x10000 == d + 0x10000 && (d / 256) % 256 >= 0x80
  {
    DivModUnique(d, 0x10000, -1, d + 0x10000);
    DivModUnique(d, 256, (d + 0x8000) / 256 - 0x80, (d + 0x8000) % 256);
    DivModUnique(d / 256, 256, -1, d / 256 + 256);
  }

  lemma Mod65536Small(d: int)
    requires 0 <= d < 0x8000
    ensures d % 0x10000 == d && (d / 256) % 256 < 0x80 && d / 256 < 0x80
  {
    DivModUnique(d, 0x10000, 0, d);
  }

  /** A signed relative pointer (`r`) written by `calculatePtr` and
      `numToBytes` is read back by `refRelPointer` as its destination. */
  lemma RelRoundTrip(rom: seq<int>, addr: int, base: int, dst: int, msb: bool)
    requires -0x8000 <= dst - base <= 0x7FFF
    requires 0 <= addr && addr + 2 <= |rom|
    ensures CalculatePtr(dst, base, Rel, msb) == Ok((dst - base, 2))
    ensures RefRelPointer(Patch(rom, addr, NumToBytes(dst - base, 2, false)), base, addr, false) == Ok((dst, false))
  {
    var b := NumToBytes(dst - base, 2, false);
    var img := Patch(rom, addr, b);
    SignedWord(dst - base);
    ReadSigned(img, base, addr);
  }

  /** A 16-bit field read as a signed (two's complement) distance. */
  function Signed16(b: seq<int>): int
    requires |b| == 2
  {
    if b[0] >= 0x80 then FromBE(b) - 0x10000 else FromBE(b)
  }

  /** Every distance of the signed 16-bit range survives `numToBytes`. */
  lemma SignedWord(d: int)
    requires -0x8000 <= d <= 0x7FFF
    ensures Signed16(NumToBytes(d, 2, false)) == d
  {
    FromToBE(d, 2);
    assert Pow256(2) == 0x10000;
    HighByte(d);
    if d < 0 {
      Mod65536Negative(d);
    } else {
      Mod65536Small(d);
    }
  }

  lemma HighByte(d: int)
    ensures NumToBytes(d, 2, false)[0] == (d / 256) % 256
  {
    assert ToBE(d, 2) == ToBE(d / 256, 1) + [d % 256];
    assert ToBE(d / 256, 1) == ToBE(d / 256 / 256, 0) + [(d / 256) % 256];
  }

  /** `refRelPointer` without the flag reads a signed distance. */
  lemma ReadSigned(img: seq<int>, base: int, addr: int)
    requires 0 <= addr && addr + 2 <= |img|
    ensures RefRelPointer(img, base, addr, false) == Ok((base + Signed16(img[addr..addr + 2]), false))
  {
    var b := img[addr..addr + 2];
    assert [b[0], b[1]] == b;
  }

  /** `calculatePtr` accepts a distance of exactly 0x8000 for `r`, which
      does not fit a signed 16-bit field: it is read back 0x10000 lower. */
  lemma RelAcceptsUnreadableDistance(rom: seq<int>, addr: int, base: int)
    requires 0 <= addr && addr + 2 <= |rom|
    ensures CalculatePtr(base + 0x8000, base, Rel, false) == Ok((0x8000, 2))
    ensures RefRelPointer(Patch(rom, addr, NumToBytes(0x8000, 2, false)), base, addr, false)
            == Ok((base + 0x8000 - 0x10000, false))
  {
    var img := Patch(rom, addr, NumToBytes(0x8000, 2, false));
    assert NumToBytes(0x8000, 2, false) == [0x80, 0];
    assert img[addr..addr + 2] == [0x80, 0];
    FromBE2(0x80, 0);
  }

  /** An `n` pointer keeps both the destination and the flag. */
  lemma RelMsbRoundTrip(rom: seq<int>, addr: int, base: int, dst: int, msb: bool)
    requires 0 <= dst - base <= 0x7FFF
    requires 0 <= addr && addr + 2 <= |rom|
    ensures CalculatePtr(dst, base, RelMsb, msb).Ok?
    ensures var v := CalculatePtr(dst, base, RelMsb, msb).value.0;
            RefRelPointer(Patch(rom, addr, NumToBytes(v, 2, false)), base, addr, true) == Ok((dst, msb))
  {
    var d := dst - base;
    var v := if msb then d + 0x8000 else d;
    assert CalculatePtr(dst, base, RelMsb, msb) == Ok((v, 2));
    var b := NumToBytes(v, 2, false);
    var img := Patch(rom, addr, b);
    assert img[addr..addr + 2] == b;
    DivModUnique(v, 0x10000, 0, v);
    FromToBE(v, 2);
    assert b == [(v / 256) % 256, v % 256];
    DivModUnique(d, 256, d / 256, d % 256);
    if msb {
      DivModUnique(v, 256, d / 256 + 0x80, d % 256);
    }
    DivModUnique(v / 256, 256, 0, v / 256);
    FromBE2(d / 256, d % 256);
  }

  /** An `f` pointer is read back unsigned: non-negative distances up to
      0x8000 round-trip ... */
  lemma RelCurRoundTrip(rom: seq<int>, addr: int, dst: int)
    requires 0 <= dst - addr <= 0x8000
    requires 0 <= addr && addr + 2 <= |rom|
    ensures CalculatePtr(dst, addr, RelCur, false) == Ok((dst - addr, 2))
    ensures RefRelCurPointer(Patch(rom, addr, NumToBytes(dst - addr, 2, false)), addr) == Ok(dst)
  {
    var d := dst - addr;
    var img := Patch(rom, addr, NumToBytes(d, 2, false));
    assert img[addr..addr + 2] == NumToBytes(d, 2, false);
    FromToBE(d, 2);
    DivModUnique(d, 0x10000, 0, d);
  }

  /** ... while a negative distance, which `calculatePtr` accepts, comes
      back 0x10000 too high. */
  lemma RelCurNegativeReadsHigh(rom: seq<int>, addr: int, dst: int)
    requires -0x8000 <= dst - addr < 0
    requires 0 <= addr && addr + 2 <= |rom|
    ensures CalculatePtr(dst, addr, RelCur, false).Ok?
    ensures RefRelCurPointer(Patch(rom, addr, NumToBytes(dst - addr, 2, false)), addr) == Ok(dst + 0x10000)
  {
    var d := dst - addr;
    var img := Patch(rom, addr, NumToBytes(d, 2, false));
    assert img[addr..addr + 2] == NumToBytes(d, 2, false);
    FromToBE(d, 2);
    Mod65536Negative(d);
  }

  /** A direct (`d`) pointer to any 32-bit address round-trips. */
  lemma DirectRoundTrip(rom: seq<int>, addr: int, dst: int)
    requires 0 <= dst < 0x1_0000_0000
    requires 0 <= addr && addr + 4 <= |rom|
    ensures CalculatePtr(dst, addr, Direct, false) == Ok((dst, 4))
    ensures RefDirectPointer(Patch(rom, addr, NumToBytes(dst, 4, false)), addr) == Ok(dst)
  {
    var img := Patch(rom, addr, NumToBytes(dst, 4, false));
    assert img[addr..addr + 4] == NumToBytes(dst, 4, false);
    BytesToNumOfNumToBytes(dst, 4, false);
  }

  // ---------------------------------------------------------------------
  // Table entries

  /** What `getScriptAddr` finds for entry `ptnum` of a table. */
  datatype EntryAddr = EntryAddr(ptrOffset: int, ptrAddress: int, skip: bool, msb: bool)

  /** Tables an entry asks to be parsed as well: one through `addRefTable`
      (deduplicated by address), or the unrolled battle scripts of
      `processSpecial3` (pushed as they are). */
  datatype Spawn = NoSpawn | RefTable(table: TableSpec) | BattleScripts(tables: seq<TableSpec>)

  /** The line width of battle scripts (`Const::LineWidth_InBattle`). */
  const LineWidthInBattle: int := 208

  /** A `tblNNN` table queued by `addRefTable`: one address, no pointer. */
  function RefTableSpec(addr: int, kind: PtrKind, count: int, lineWidth: int): TableSpec {
    TableSpec([addr], NoPtr, Structure(2, kind, []), count, NoSpecial, lineWidth, None, false)
  }

  /** `processSpecial3`: a battle-script block starts with a count word;
      0xFFFF means none, otherwise `count + 1` one-entry `2,r` tables follow,
      12 bytes apart, the first 10 bytes after the block start. */
  function BattleScriptTables(rom: seq<int>, addr: int): (r: Result<seq<TableSpec>, Fault>)
    ensures r.Ok? ==> addr >= 0 && addr + 2 <= |rom|
    ensures r.Ok? ==> (|r.value| == 0 <==> (FromBE(rom[addr..addr + 2]) == 0xFFFF || FromBE(rom[addr..addr + 2]) < 0))
    ensures r.Ok? && |r.value| > 0 ==> |r.value| == FromBE(rom[addr..addr + 2]) + 1
    ensures r.Ok? ==> forall i :: 0 <= i < |r.value| ==>
              r.value[i].tablePtr == [addr + 10 + 12 * i] && r.value[i].structure == Structure(2, Rel, [])
  {
    var w :- ReadBytes(rom, addr, 2);
    var n := FromBE(w);
    if n == 0xFFFF then Ok([])
    else if n + 1 <= 0 then Ok([])
    else Ok(seq(n + 1, i requires 0 <= i < n + 1 =>
      TableSpec([addr + 10 + 12 * i], NoPtr, Structure(2, Rel, []), 1, NoSpecial, LineWidthInBattle, None, false)))
  }

  /** The sub-table size named in the structure column, 0 when missing
      (`nil.to_i`). */
  function ExtraAt(s: Structure, i: int): int {
    if 0 <= i < |s.extra| then s.extra[i] else 0
  }

  /** Where entry `ptnum` of table `t` (based at `tableAddr`) points. */
  function EntryTarget(rom: seq<int>, t: TableSpec, tableAddr: int, ptnum: int): Result<(int, bool), Fault> {
    var ptrOffset := tableAddr + ptnum * t.structure.stride;
    match t.structure.kind
    case Direct =>
      var a :- RefDirectPointer(rom, ptrOffset);
      Ok((a, false))
    case Rel => RefRelPointer(rom, tableAddr, ptrOffset, false)
    case RelMsb => RefRelPointer(rom, tableAddr, ptrOffset, true)
    case RelCur =>
      var a :- RefRelCurPointer(rom, ptrOffset);
      Ok((a, false))
    case NoPtr => Ok((ptrOffset, false))
    case Other(_) => Err(WrongPointerType)
  }

  /** `getScriptAddr`: the entry's own address, its target, whether the
      entry is to be skipped, its MSB flag, and the tables it spawns. */
  function GetScriptAddr(rom: seq<int>, t: TableSpec, tableAddr: int, ptnum: int): (r: Result<(EntryAddr, Spawn), Fault>)
    ensures r.Ok? ==> r.value.0.ptrOffset == tableAddr + ptnum * t.structure.stride
    ensures r.Ok? && t.structure.kind == NoPtr ==> r.value.0.ptrAddress == r.value.0.ptrOffset
    ensures r.Ok? && r.value.0.msb ==> t.structure.kind == RelMsb
    ensures r.Ok? ==> (r.value.0.skip <==>
              t.special in {Special2, Special3} || (t.special == Special1 && ptnum % 4 in {2, 3}))
    ensures r.Ok? && !r.value.1.NoSpawn? ==> r.value.0.skip
    ensures t.structure.kind.Other? ==> r.Err?
  {
    var ptrOffset := tableAddr + ptnum * t.structure.stride;
    var target :- EntryTarget(rom, t, tableAddr, ptnum);
    var (ptrAddress, msb) := target;
    match t.special
    case Special1 =>
      if ptnum % 4 == 2 then Ok((EntryAddr(ptrOffset, ptrAddress, true, false), NoSpawn))
      else if ptnum % 4 == 3 then
        Ok((EntryAddr(ptrOffset, ptrAddress, true, msb),
            RefTable(RefTableSpec(ptrAddress, RelCur, ExtraAt(t.structure, 0), t.lineWidth))))
      else Ok((EntryAddr(ptrOffset, ptrAddress, false, msb), NoSpawn))
    case Special2 =>
      Ok((EntryAddr(ptrOffset, ptrAddress, true, msb),
          RefTable(RefTableSpec(ptrAddress, Rel, ExtraAt(t.structure, ptnum), t.lineWidth))))
    case Special3 =>
      var tables :- BattleScriptTables(rom, ptrAddress);
      Ok((EntryAddr(ptrOffset, ptrAddress, true, msb), BattleScripts(tables)))
    case _ => Ok((EntryAddr(ptrOffset, ptrAddress, false, msb), NoSpawn))
  }
  /** The target of an entry is what the reader of its kind finds at the
      entry, and outside a battle-script block an entry fails exactly when
      that read fails. */
  lemma EntryReads(rom: seq<int>, t: TableSpec, tableAddr: int, ptnum: int)
    ensures var r := GetScriptAddr(rom, t, tableAddr, ptnum);
            && (r.Ok? && t.structure.kind == Direct ==>
                  RefDirectPointer(rom, r.value.0.ptrOffset) == Ok(r.value.0.ptrAddress))
            && (r.Ok? && t.structure.kind == Rel ==>
                  RefRelPointer(rom, tableAddr, r.value.0.ptrOffset, false) == Ok((r.value.0.ptrAddress, false)))
            && (r.Ok? && t.structure.kind == RelMsb ==>
                  && RefRelPointer(rom, tableAddr, r.value.0.ptrOffset, true).Ok?
                  && RefRelPointer(rom, tableAddr, r.value.0.ptrOffset, true).value.0 == r.value.0.ptrAddress
                  && (r.value.0.msb <==>
                        RefRelPointer(rom, tableAddr, r.value.0.ptrOffset, true).value.1 && !(t.special == Special1 && ptnum % 4 == 2)))
            && (r.Ok? && t.structure.kind == RelCur ==>
                  RefRelCurPointer(rom, r.value.0.ptrOffset) == Ok(r.value.0.ptrAddress))
            && (t.special != Special3 ==> (r.Ok? <==> EntryTarget(rom, t, tableAddr, ptnum).Ok?))
  {
  }

  /** The tables the special handlers ask for: a `2,f` table at entry 3 of
      every 4 for special1, a `2,r` table with the entry's own structure for
      special2, the battle-script tables for special3, and nothing otherwise. */
  lemma SpawnedTables(rom: seq<int>, t: TableSpec, tableAddr: int, ptnum: int)
    ensures var r := GetScriptAddr(rom, t, tableAddr, ptnum);
            && (r.Ok? && t.special == Special1 && ptnum % 4 == 3 ==>
                  r.value.1 == RefTable(RefTableSpec(r.value.0.ptrAddress, RelCur, ExtraAt(t.structure, 0), t.lineWidth)))
            && (r.Ok? && t.special == Special2 ==>
                  r.value.1 == RefTable(RefTableSpec(r.value.0.ptrAddress, Rel, ExtraAt(t.structure, ptnum), t.lineWidth)))
            && (t.special == Special3 && r.Ok? ==>
                  r.value.1.BattleScripts? && BattleScriptTables(rom, r.value.0.ptrAddress) == Ok(r.value.1.tables))
            && (r.Ok? && !(t.special == Special1 && ptnum % 4 == 3) && !(t.special in {Special2, Special3}) ==>
                  r.value.1 == NoSpawn)
  {
  }


  /** `addRefTable`: queue a table at an address not seen before. */
  function AddRefTable(known: set<int>, queue: seq<TableSpec>, t: TableSpec): (r: (set<int>, seq<TableSpec>))
    requires |t.tablePtr| == 1
    ensures r.0 == known + {t.tablePtr[0]}
    ensures r.1 == if t.tablePtr[0] in known then queue else queue + [t]
  {
    if t.tablePtr[0] in known then (known, queue) else (known + {t.tablePtr[0]}, queue + [t])
  }

  /** The width of an entry's pointer: four bytes for `d`, two for the relative kinds. */
  function EntryWidth(kind: PtrKind): nat {
    if kind == Direct then 4 else 2
  }

  /** The distances each kind of entry can hold and give back: any 32-bit
      address for `d`, a signed 16-bit distance for `r`, a 15-bit one for
      `n`, and up to 0x8000 from the entry itself for `f`. */
  predicate Encodable(kind: PtrKind, tableAddr: int, at: int, dst: int) {
    match kind
    case Direct => 0 <= dst < 0x1_0000_0000
    case Rel => -0x8000 <= dst - tableAddr <= 0x7FFF
    case RelMsb => 0 <= dst - tableAddr <= 0x7FFF
    case RelCur => 0 <= dst - at <= 0x8000
    case _ => false
  }

  /** An entry of a table without a special handler is never skipped and
      spawns nothing: it is what the reader of its kind finds. */
  lemma PlainEntry(rom: seq<int>, t: TableSpec, tableAddr: int, ptnum: int)
    requires t.special == NoSpecial
    ensures var e := EntryTarget(rom, t, tableAddr, ptnum);
            GetScriptAddr(rom, t, tableAddr, ptnum) ==
              if e.Err? then Err(e.error)
              else Ok((EntryAddr(tableAddr + ptnum * t.structure.stride, e.value.0, false, e.value.1), NoSpawn))
  {
  }

  /** Writing an entry of a table without a special handler with
      `calculatePtr` (relative to the table base, or to the entry itself for
      `f`) and reading the table again with `getScriptAddr` finds the new
      destination, and for `n` the flag that was written. */
  lemma EntryRoundTrip(rom: seq<int>, t: TableSpec, tableAddr: int, ptnum: int, dst: int, msb: bool)
    requires t.special == NoSpecial
    requires var at := tableAddr + ptnum * t.structure.stride;
             && Encodable(t.structure.kind, tableAddr, at, dst)
             && 0 <= at && at + EntryWidth(t.structure.kind) <= |rom|
    ensures var kind := t.structure.kind;
            var at := tableAddr + ptnum * t.structure.stride;
            var e := CalculatePtr(dst, if kind == RelCur then at else tableAddr, kind, msb);
            && e.Ok? && e.value.1 == EntryWidth(kind)
            && GetScriptAddr(Patch(rom, at, NumToBytes(e.value.0, e.value.1, false)), t, tableAddr, ptnum)
               == Ok((EntryAddr(at, dst, false, kind == RelMsb && msb), NoSpawn))
  {
    var at := tableAddr + ptnum * t.structure.stride;
    var kind := t.structure.kind;
    var e := CalculatePtr(dst, if kind == RelCur then at else tableAddr, kind, msb);
    match kind
    case Direct =>
      DirectEntry(rom, t, tableAddr, ptnum, at, dst, msb);
      assert NumToBytes(e.value.0, e.value.1, false) == NumToBytes(dst, 4, false);
    case Rel =>
      RelEntry(rom, t, tableAddr, ptnum, at, dst, msb);
      assert NumToBytes(e.value.0, e.value.1, false) == NumToBytes(dst - tableAddr, 2, false);
    case RelMsb =>
      RelMsbEntry(rom, t, tableAddr, ptnum, at, dst, msb);
      assert NumToBytes(e.value.0, e.value.1, false) == NumToBytes(CalculatePtr(dst, tableAddr, RelMsb, msb).value.0, 2, false);
    case RelCur =>
      RelCurEntry(rom, t, tableAddr, ptnum, at, dst, msb);
      assert NumToBytes(e.value.0, e.value.1, false) == NumToBytes(dst - at, 2, false);
  }

  /** Rewriting a `d`, `r`, `n` or `f` entry with what `calculatePtr`
      encodes for a destination makes the entry read back that destination;
      one lemma per kind keeps each proof small. */
  lemma DirectEntry(rom: seq<int>, t: TableSpec, tableAddr: int, ptnum: int, at: int, dst: int, msb: bool)
    requires t.special == NoSpecial && t.structure.kind == Direct
    requires at == tableAddr + ptnum * t.structure.stride
    requires 0 <= dst < 0x1_0000_0000 && 0 <= at && at + 4 <= |rom|
    ensures CalculatePtr(dst, tableAddr, Direct, msb) == Ok((dst, 4))
    ensures GetScriptAddr(Patch(rom, at, NumToBytes(dst, 4, false)), t, tableAddr, ptnum)
            == Ok((EntryAddr(at, dst, false, false), NoSpawn))
  {
    DirectRoundTrip(rom, at, dst);
    assert CalculatePtr(dst, tableAddr, Direct, msb) == CalculatePtr(dst, at, Direct, false);
    PlainEntry(Patch(rom, at, NumToBytes(dst, 4, false)), t, tableAddr, ptnum);
  }

  lemma RelEntry(rom: seq<int>, t: TableSpec, tableAddr: int, ptnum: int, at: int, dst: int, msb: bool)
    requires t.special == NoSpecial && t.structure.kind == Rel
    requires at == tableAddr + ptnum * t.structure.stride
    requires -0x8000 <= dst - tableAddr <= 0x7FFF && 0 <= at && at + 2 <= |rom|
    ensures CalculatePtr(dst, tableAddr, Rel, msb) == Ok((dst - tableAddr, 2))
    ensures GetScriptAddr(Patch(rom, at, NumToBytes(dst - tableAddr, 2, false)), t, tableAddr, ptnum)
            == Ok((EntryAddr(at, dst, false, false), NoSpawn))
  {
    RelRoundTrip(rom, at, tableAddr, dst, msb);
    PlainEntry(Patch(rom, at, NumToBytes(dst - tableAddr, 2, false)), t, tableAddr, ptnum);
  }

  lemma RelMsbEntry(rom: seq<int>, t: TableSpec, tableAddr: int, ptnum: int, at: int, dst: int, msb: bool)
    requires t.special == NoSpecial && t.structure.kind == RelMsb
    requires at == tableAddr + ptnum * t.structure.stride
    requires 0 <= dst - tableAddr <= 0x7FFF && 0 <= at && at + 2 <= |rom|
    ensures CalculatePtr(dst, tableAddr, RelMsb, msb).Ok? && CalculatePtr(dst, tableAddr, RelMsb, msb).value.1 == 2
    ensures GetScriptAddr(Patch(rom, at, NumToBytes(CalculatePtr(dst, tableAddr, RelMsb, msb).value.0, 2, false)), t, tableAddr, ptnum)
            == Ok((EntryAddr(at, dst, false, msb), NoSpawn))
  {
    RelMsbRoundTrip(rom, at, tableAddr, dst, msb);
    PlainEntry(Patch(rom, at, NumToBytes(CalculatePtr(dst, tableAddr, RelMsb, msb).value.0, 2, false)), t, tableAddr, ptnum);
  }

  lemma RelCurEntry(rom: seq<int>, t: TableSpec, tableAddr: int, ptnum: int, at: int, dst: int, msb: bool)
    requires t.special == NoSpecial && t.structure.kind == RelCur
    requires at == tableAddr + ptnum * t.structure.stride
    requires 0 <= dst - at <= 0x8000 && 0 <= at && at + 2 <= |rom|
    ensures CalculatePtr(dst, at, RelCur, msb) == Ok((dst - at, 2))
    ensures GetScriptAddr(Patch(rom, at, NumToBytes(dst - at, 2, false)), t, tableAddr, ptnum)
            == Ok((EntryAddr(at, dst, false, false), NoSpawn))
  {
    RelCurRoundTrip(rom, at, dst);
    assert CalculatePtr(dst, at, RelCur, msb) == CalculatePtr(dst, at, RelCur, false);
    PlainEntry(Patch(rom, at, NumToBytes(dst - at, 2, false)), t, tableAddr, ptnum);
  }}
