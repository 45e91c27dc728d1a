/** Placement of the rebuilt script groups in the ROM: `mergeScripts`,
    `merge_ConsiderStaticPointers`, `merge_ConsiderInlineTables` and
    `merge_AllocateAndMerge` of Ruby/main.rb.

    Every group is given an address inside a window that all its 16-bit
    pointers can reach: each static pointer table entry that points into the
    group and each inline LEA to a pointer table contributes a window, and the
    group's start must lie at or after the largest lower bound while its end
    stays at or before the smallest upper bound. Groups that reach this group
    through an inline 2-byte LEA are placed first (and narrow the window
    further); groups that this group reaches through one are placed when the
    instruction holding the LEA is. A group is entered only while it is not
    yet allocated. */
module Importer {
  import opened Wrappers
  import opened Bytes
  import opened Pointers
  import opened Allocator
  import Opcodes

  // ---------------------------------------------------------------------------
  // The tables the importer reads
  // ---------------------------------------------------------------------------

  /** One allowed range for a group's start and end: a pair of entries of the
      `minAllow` and `maxAllow` arrays, which are always pushed together. */
  datatype Window = Window(lo: int, hi: int)

  /** A row of the pointer table joined with the description of its table. */
  datatype PointerRow = PointerRow(
    ptrs: seq<int>,         // where the entry is stored (one or more addresses)
    ptrRef: int,            // the instruction address it held when exported
    reference: int,         // the instruction id it points to, -1 for none
    msb: bool,              // the flag an `n` pointer carries
    manual: Option<Window>, // a restriction given by hand, when both bounds are set
    tablePtr: seq<int>,     // the table's `tableptr` column
    tableType: string,      // the table's pointer type column
    structure: string,      // the table's structure column
    tableRef: seq<int>)     // the table's `tablePtr` column (for `s` tables)

  /** A row of the instruction table: id, exported address and group. */
  datatype OpRow = OpRow(id: int, addr: int, group: int)

  datatype LinkKind = Sub | Lea4 | Lea2 | Lea2Self | LeaTable | OtherLink

  /** A row of the instruction-link table. */
  datatype Link = Link(kind: LinkKind, opcode: int, reference: int, leaOffset: int, refTable: int)

  /** A group as the importer holds it: its length, its instructions with
      their rebuilt bytes in the order they were inserted, whether it needs an
      even address and whether it has been allocated. */
  datatype GroupState = GroupState(length: int, ops: seq<(int, Opcodes.Emitted)>, hasCalls: bool, isAllocated: bool)

  /** The entry `buildTranslatedScripts` stores for a rebuilt group: not yet
      allocated. */
  function Loaded(g: Opcodes.Group): (r: GroupState)
    ensures r.ops == g.ops && r.length == g.length && r.hasCalls == g.hasCalls && !r.isAllocated
  {
    GroupState(g.length, g.ops, g.hasCalls, false)
  }

  /** `"0x..".to_i(16)` of a column holding a list of addresses. */
  function First(xs: seq<int>): int {
    if |xs| > 0 then xs[0] else 0
  }

  /** The window a signed 16-bit distance from `base` reaches. */
  function Around(base: int): Window {
    Window(base - 0x8000, base + 0x7FFF)
  }

  // ---------------------------------------------------------------------------
  // Windows of static pointers
  // ---------------------------------------------------------------------------

  /** The window one pointer table entry imposes on the group it points into:
      the hand-given one, or one that follows from the pointer kind, or none
      for absolute pointers. */
  function PointerWindow(p: PointerRow): Result<Option<Window>, Fault> {
    if p.manual.Some? then Ok(p.manual)
    else
      var isRelativePtr := 's' in p.structure && 'r' in p.tableType;
      var isRelative := isRelativePtr || ('d' !in p.structure && 's' !in p.structure);
      if !isRelative then Ok(None)
      else if isRelativePtr then Ok(Some(Around(First(p.tableRef))))
      else if 'f' in p.structure then Ok(Some(Around(First(p.ptrs))))
      else if 'r' in p.structure then Ok(Some(Around(First(p.tablePtr))))
      else if 'n' in p.structure then Ok(Some(Window(First(p.tablePtr), First(p.tablePtr) + 0x7FFF)))
      else Err(WrongRelativePointer(First(p.ptrs)))
  }

  /** The lower-case letters of a structure column, in order. */
  function Letters(s: string): seq<char> {
    if |s| == 0 then [] else (if 'a' <= s[0] <= 'z' then [s[0]] else []) + Letters(s[1..])
  }

  lemma {:induction false} LettersHold(s: string, c: char)
    requires c in s && 'a' <= c <= 'z'
    ensures c in Letters(s)
    decreases |s|
  {
    if s[0] != c {
      LettersHold(s[1..], c);
    }
  }

  /** The kind `fixStaticPointers` encodes an entry with: the table's pointer
      type for `s` tables, otherwise the one letter of the structure. */
  function StaticKind(p: PointerRow): Result<PtrKind, Fault> {
    if 's' in p.structure then Ok(KindOfText(p.tableType))
    else
      var ls := Letters(p.structure);
      if |ls| != 1 then Err(WrongStructure) else Ok(KindOf(ls[0]))
  }

  /** The addresses `fixStaticPointers` writes an entry to. */
  function StaticSources(p: PointerRow): seq<int> {
    if 's' in p.structure then p.tableRef else p.ptrs
  }

  /** The base `fixStaticPointers` measures an entry written at `src` from. */
  function StaticBase(p: PointerRow, src: int): int {
    if 's' in p.structure && 'r' in p.tableType then First(p.tableRef)
    else if 'f' in p.structure then src
    else First(p.tablePtr)
  }

  /** A destination inside an entry's derived window can be encoded at the
      entry's first address: the window is exactly the range of the kind the
      entry is written with (a signed 16-bit distance for `r` and `f`, an
      unsigned 15-bit one for `n`). */
  lemma WindowEncodes(p: PointerRow, dst: int)
    requires p.manual.None? && PointerWindow(p).Ok? && PointerWindow(p).value.Some?
    requires var w := PointerWindow(p).value.value; w.lo <= dst <= w.hi
    requires StaticKind(p).Ok? && !StaticKind(p).value.Other?
    ensures var kind := StaticKind(p).value;
      var base := StaticBase(p, First(StaticSources(p)));
      && CalculatePtr(dst, base, kind, p.msb).Ok?
      && (kind == Rel || kind == RelCur || kind == RelMsb)
      && (kind == RelMsb ==> 0 <= dst - base <= 0x7FFF)
      && (kind != RelMsb ==> -0x8000 <= dst - base <= 0x7FFF)
  {
    WindowShape(p);
  }

  /** The derived window of an entry is exactly the range its kind can
      encode from its base. */
  lemma WindowShape(p: PointerRow)
    requires p.manual.None? && PointerWindow(p).Ok? && PointerWindow(p).value.Some?
    requires StaticKind(p).Ok? && !StaticKind(p).value.Other?
    ensures var kind := StaticKind(p).value;
      var base := StaticBase(p, First(StaticSources(p)));
      var w := PointerWindow(p).value.value;
      || ((kind == Rel || kind == RelCur) && w == Around(base))
      || (kind == RelMsb && w == Window(base, base + 0x7FFF))
  {
    var kind := StaticKind(p).value;
    var base := StaticBase(p, First(StaticSources(p)));
    var w := PointerWindow(p).value.value;
    if 's' in p.structure {
      assert 'r' in p.tableType;
      assert |p.tableType| == 1;
      assert p.tableType[0] == 'r';
      assert kind == Rel && base == First(p.tableRef) && w == Around(base);
    } else {
      var c := LetterShape(p);
      if c == 'f' {
        assert kind == RelCur && base == First(p.ptrs) && w == Around(base);
      } else if c == 'r' {
        assert kind == Rel && base == First(p.tablePtr) && w == Around(base);
      } else {
        assert kind == RelMsb && base == First(p.tablePtr) && w == Window(base, base + 0x7FFF);
      }
    }
  }

  /** An entry without an `s` is encoded with the kind of the one relative
      letter its window was derived from. */
  lemma LetterShape(p: PointerRow) returns (c: char)
    requires 's' !in p.structure && StaticKind(p).Ok?
    requires 'f' in p.structure || 'r' in p.structure || 'n' in p.structure
    ensures c == (if 'f' in p.structure then 'f' else if 'r' in p.structure then 'r' else 'n')
    ensures StaticKind(p).value == KindOf(c)
  {
    c := if 'f' in p.structure then 'f' else if 'r' in p.structure then 'r' else 'n';
    LettersHold(p.structure, c);
    var ls := Letters(p.structure);
    assert |ls| == 1 && c in ls;
    assert ls[0] == c;
  }

  /** The windows the pointer rows impose on a group whose instructions were
      exported between `span.lo` and `span.hi`, in row order; a group without
      instructions matches no row. */
  function StaticWindows(ps: seq<PointerRow>, span: Option<Window>): Result<seq<Window>, Fault> {
    if |ps| == 0 || span.None? then Ok([])
    else
      var here :- if span.value.lo <= ps[0].ptrRef <= span.value.hi then PointerWindow(ps[0]) else Ok(None);
      var rest :- StaticWindows(ps[1..], span);
      Ok((if here.Some? then [here.value] else []) + rest)
  }

  /** The first and last exported address of a group's instructions. */
  function GroupSpan(rows: seq<OpRow>, g: int): (r: Option<Window>)
    ensures r.None? <==> forall k :: 0 <= k < |rows| ==> rows[k].group != g
    ensures r.Some? ==> forall k :: 0 <= k < |rows| && rows[k].group == g ==> r.value.lo <= rows[k].addr <= r.value.hi
    ensures r.Some? ==> exists k :: 0 <= k < |rows| && rows[k].group == g && rows[k].addr == r.value.lo
    ensures r.Some? ==> exists k :: 0 <= k < |rows| && rows[k].group == g && rows[k].addr == r.value.hi
  {
    if |rows| == 0 then None
    else
      var rest := GroupSpan(rows[1..], g);
      assert forall k :: 1 <= k < |rows| ==> rows[1..][k - 1] == rows[k];
      if rows[0].group != g then rest
      else match rest
        case None => Some(Window(rows[0].addr, rows[0].addr))
        case Some(w) =>
          Some(Window(if rows[0].addr < w.lo then rows[0].addr else w.lo, if rows[0].addr > w.hi then rows[0].addr else w.hi))
  }

  /** The group of an instruction id (the first row with that id). */
  function GroupOf(rows: seq<OpRow>, id: int): (r: Option<int>)
    ensures r.Some? <==> exists k :: 0 <= k < |rows| && rows[k].id == id
    ensures r.Some? ==> exists k :: 0 <= k < |rows| && rows[k].id == id && rows[k].group == r.value
  {
    if |rows| == 0 then None
    else if rows[0].id == id then Some(rows[0].group)
    else
      assert forall k :: 1 <= k < |rows| ==> rows[1..][k - 1] == rows[k];
      GroupOf(rows[1..], id)
  }

  // ---------------------------------------------------------------------------
  // Windows of inline LEAs and LEA2 links
  // ---------------------------------------------------------------------------

  /** The windows the inline LEAs to pointer tables in group `g` impose. */
  function InlineTableWindows(links: seq<Link>, rows: seq<OpRow>, g: int): seq<Window> {
    if |links| == 0 then []
    else
      var l := links[0];
      (if l.kind == LinkKind.LeaTable && GroupOf(rows, l.opcode) == Some(g) then [Around(l.refTable)] else [])
        + InlineTableWindows(links[1..], rows, g)
  }

  /** The groups holding an inline 2-byte LEA into group `g`, one per link. */
  function Referrers(links: seq<Link>, rows: seq<OpRow>, g: int): seq<int> {
    if |links| == 0 then []
    else
      var l := links[0];
      var src := GroupOf(rows, l.opcode);
      (if l.kind == Lea2 && src.Some? && GroupOf(rows, l.reference) == Some(g) then [src.value] else [])
        + Referrers(links[1..], rows, g)
  }

  /** An inline 2-byte LEA of one instruction: its offset in the instruction's
      parameters, the instruction it points to and that instruction's group. */
  datatype LeaRef = LeaRef(leaOffset: int, reference: int, refGroup: int)

  /** The inline LEAs from instruction `opid` of group `g` to other groups'
      instructions. */
  function LeaRefs(links: seq<Link>, rows: seq<OpRow>, g: int, opid: int): seq<LeaRef> {
    if |links| == 0 then []
    else
      var l := links[0];
      var ref := GroupOf(rows, l.reference);
      (if l.kind == Lea2 && l.opcode == opid && GroupOf(rows, l.opcode) == Some(g) && ref.Some?
       then [LeaRef(l.leaOffset, l.reference, ref.value)] else [])
        + LeaRefs(links[1..], rows, g, opid)
  }

  /** The inline LEAs from instruction `opid` into its own group. */
  function SelfRefs(links: seq<Link>, opid: int): seq<LeaRef> {
    if |links| == 0 then []
    else
      var l := links[0];
      (if l.kind == Lea2Self && l.opcode == opid then [LeaRef(l.leaOffset, l.reference, 0)] else [])
        + SelfRefs(links[1..], opid)
  }

  // ---------------------------------------------------------------------------
  // The intersection of the windows
  // ---------------------------------------------------------------------------

  /** `minAllow.max`: the largest lower bound. */
  function MaxLo(ws: seq<Window>): (r: int)
    requires |ws| > 0
    ensures forall k :: 0 <= k < |ws| ==> ws[k].lo <= r
    ensures exists k :: 0 <= k < |ws| && ws[k].lo == r
  {
    if |ws| == 1 then ws[0].lo
    else
      var rest := MaxLo(ws[1..]);
      assert forall k :: 1 <= k < |ws| ==> ws[1..][k - 1] == ws[k];
      if ws[0].lo > rest then ws[0].lo else rest
  }

  /** `maxAllow.min`: the smallest upper bound. */
  function MinHi(ws: seq<Window>): (r: int)
    requires |ws| > 0
    ensures forall k :: 0 <= k < |ws| ==> r <= ws[k].hi
    ensures exists k :: 0 <= k < |ws| && ws[k].hi == r
  {
    if |ws| == 1 then ws[0].hi
    else
      var rest := MinHi(ws[1..]);
      assert forall k :: 1 <= k < |ws| ==> ws[1..][k - 1] == ws[k];
      if ws[0].hi < rest then ws[0].hi else rest
  }

  /** The bytes of a group's instructions, back to back. */
  function Merged(ops: seq<(int, Opcodes.Emitted)>): seq<int> {
    if |ops| == 0 then [] else Merged(ops[..|ops| - 1]) + ops[|ops| - 1].1.data
  }

  /** The importer's state: the groups, the new address of every placed
      instruction, the inline 2-byte LEAs still to be written (address to
      instruction id, in the order a Ruby hash keeps its keys), the patched
      image and the free space. The tables it reads are fixed. */
  class Merger {
    const pointers: seq<PointerRow>
    const opcodes: seq<OpRow>
    const links: seq<Link>
    const free: FreeSpace
    var groups: map<int, GroupState>
    var newOpAddrs: map<int, int>
    var inlineRef: seq<(int, int)>
    var image: seq<int>

    constructor(pointers: seq<PointerRow>, opcodes: seq<OpRow>, links: seq<Link>, free: FreeSpace,
                groups: map<int, GroupState>, image: seq<int>)
      ensures this.pointers == pointers && this.opcodes == opcodes && this.links == links && this.free == free
      ensures this.groups == groups && this.image == image
      ensures newOpAddrs == map[] && inlineRef == []
    {
      this.pointers := pointers;
      this.opcodes := opcodes;
      this.links := links;
      this.free := free;
      this.groups := groups;
      this.image := image;
      newOpAddrs := map[];
      inlineRef := [];
    }

    /** The part of the state that placement only ever extends. */
    function Snapshot(): Snap
      reads this
    {
      Snap(groups, newOpAddrs, |image|, inlineRef)
    }

    /** The groups not allocated yet: every recursive step allocates one. */
    function Unallocated(): set<int>
      reads this
    {
      Pending(groups)
    }

    /** `merge_ConsiderStaticPointers`: the windows of the static pointers into
        group `g`. */
    method ConsiderStaticPointers(g: int) returns (r: Result<seq<Window>, Fault>)
      ensures r == StaticWindows(pointers, GroupSpan(opcodes, g))
    {
      var span := GroupSpan(opcodes, g);
      if span.None? {
        return Ok([]);
      }
      var ws: seq<Window> := [];
      var i := 0;
      PrefixedEmpty(StaticWindows(pointers, span));
      while i < |pointers|
        invariant 0 <= i <= |pointers|
        invariant StaticWindows(pointers, span) == Prefixed(ws, StaticWindows(pointers[i..], span))
      {
        var p := pointers[i];
        StaticStep(pointers, i, span, ws);
        var here := if span.value.lo <= p.ptrRef <= span.value.hi then PointerWindow(p) else Ok(None);
        if here.Err? {
          return Err(here.error);
        }
        if here.value.Some? {
          ws := ws + [here.value.value];
        } else {
          assert ws + [] == ws;
        }
        i := i + 1;
      }
      assert pointers[i..] == [];
      assert ws + [] == ws;
      r := Ok(ws);
    }

    /** `merge_ConsiderInlineTables`: the windows of the inline LEAs to
        pointer tables in group `g`. */
    method ConsiderInlineTables(g: int) returns (ws: seq<Window>)
      ensures ws == InlineTableWindows(links, opcodes, g)
    {
      ws := [];
      var i := 0;
      InlineStart(links, opcodes, g);
      while i < |links|
        invariant 0 <= i <= |links|
        invariant InlineTableWindows(links, opcodes, g) == ws + InlineTableWindows(links[i..], opcodes, g)
      {
        InlineStep(links, opcodes, g, i, ws);
        var l := links[i];
        var here := if l.kind == LinkKind.LeaTable && GroupOf(opcodes, l.opcode) == Some(g) then [Around(l.refTable)] else [];
        ws := ws + here;
        i := i + 1;
      }
      InlineEnd(links, opcodes, g, ws);
    }

    /** Records an inline 2-byte LEA at `at` to instruction `ref`. */
    method Record(at: int, ref: int)
      modifies this
      ensures inlineRef == Put(old(inlineRef), at, ref)
      ensures KeptKeys(old(inlineRef), inlineRef) && Lookup(inlineRef, at) == Some(ref)
      ensures groups == old(groups) && newOpAddrs == old(newOpAddrs) && image == old(image)
    {
      inlineRef := Put(inlineRef, at, ref);
      PutKeeps(old(inlineRef), at, ref);
      PutLookup(old(inlineRef), at, ref);
    }

    /** `merge_AllocateAndMerge`: places group `gId`, which is not allocated
        yet, inside the intersection of `allow` and the windows it adds, and
        copies its bytes there. `allowOut` is `allow` after the windows of
        this group, and of the groups placed first because they reach it
        through an inline LEA, were pushed onto it. On success the group has
        its address, the window was not empty and holds the address (an
        address carved out of a divided block starts the window and may
        overrun its end), every instruction of the group has its own new
        address, which no instruction had before, and the image holds the
        group's bytes, as many as the group's length. */
    method AllocateAndMerge(gId: int, allow: seq<Window>) returns (r: Result<int, Fault>, allowOut: seq<Window>)
      requires gId in groups && !groups[gId].isAllocated && |allow| > 0
      modifies this, free
      decreases Unallocated(), 0
      ensures Grows(old(Snapshot()), Snapshot()) && allow <= allowOut
      ensures r.Ok? ==> Placed(old(Snapshot()), Snapshot())
      ensures r.Ok? ==>
        var statics := StaticWindows(pointers, GroupSpan(opcodes, gId));
        && groups[gId].isAllocated
        && statics.Ok? && allow + statics.value + InlineTableWindows(links, opcodes, gId) <= allowOut
        && Landed(groups[gId], r.value, MaxLo(allowOut), MinHi(allowOut), image, old(newOpAddrs), newOpAddrs)
      ensures r.Ok? ==> AllAllocated(Snapshot(), Referrers(links, opcodes, gId))
    {
      ghost var s0 := Snapshot();
      allowOut := allow;
      var statics := ConsiderStaticPointers(gId);
      if statics.Err? {
        return Err(statics.error), allowOut;
      }
      var inlines := ConsiderInlineTables(gId);
      allowOut := allow + statics.value + inlines;
      var g := groups[gId];
      groups := groups[gId := g.(isAllocated := true)];
      ghost var s1 := Snapshot();
      MarkAllocated(s0, s1, gId);
      var referred;
      ghost var pushed;
      referred, allowOut, pushed := AllocateReferrers(gId, allowOut);
      ghost var s2 := Snapshot();
      GrowsTrans(s0, s1, s2);
      if referred.Err? {
        return Err(referred.error), allowOut;
      }
      var lo := MaxLo(allowOut);
      var hi := MinHi(allowOut);
      if lo > hi {
        return Err(OutOfRange), allowOut;
      }
      GrowsPending(s1, s2);
      r := Paste(gId, lo, hi);
      ghost var s3 := Snapshot();
      GrowsTrans(s0, s2, s3);
      if r.Ok? {
        LandedEarlier(groups[gId], r.value, lo, hi, image, s0.newOpAddrs, s2.newOpAddrs, s3.newOpAddrs);
        Finished(s0, s1, s2, s3, gId);
        AllocatedKept(s2, s3, Referrers(links, opcodes, gId));
      }
    }

    /** The second half of `merge_AllocateAndMerge`: takes space for group
        `gId` from the free list inside `[lo, hi]`, gives its instructions
        their addresses and copies its bytes there. */
    method Paste(gId: int, lo: int, hi: int) returns (r: Result<int, Fault>)
      requires gId in groups && groups[gId].isAllocated
      modifies this, free
      decreases Unallocated(), 4
      ensures Grows(old(Snapshot()), Snapshot())
      ensures r.Ok? ==> Placed(old(Snapshot()), Snapshot())
      ensures r.Ok? ==> Landed(groups[gId], r.value, lo, hi, image, old(newOpAddrs), newOpAddrs)
    {
      var g := groups[gId];
      ghost var before := free.blocks;
      var pasteOff := free.Malloc(g.length, g.hasCalls, lo, hi);
      if pasteOff.Err? {
        return Err(pasteOff.error);
      }
      AllocatedInWindow(before, g.length, g.hasCalls, lo, hi);
      var placed := PlaceOps(gId, pasteOff.value);
      if placed.Err? {
        return Err(placed.error);
      }
      var merged := Merged(g.ops);
      if |merged| != g.length {
        return Err(LengthMismatch(|merged|, g.length));
      }
      if pasteOff.value < 0 || pasteOff.value + |merged| > |image| {
        return Err(WritePastEnd(pasteOff.value + |merged|));
      }
      image := Patch(image, pasteOff.value, merged);
      r := Ok(pasteOff.value);
    }

    /** The step every caller of `merge_AllocateAndMerge` takes: group `g`
        is placed with the windows `allow` unless it is allocated already,
        in which case nothing changes and the result is `None`; an id that
        names no group is a fault. */
    method Visit(g: int, allow: seq<Window>) returns (r: Result<Option<int>, Fault>, allowOut: seq<Window>)
      requires |allow| > 0
      modifies this, free
      decreases Unallocated(), 1
      ensures Grows(old(Snapshot()), Snapshot()) && allow <= allowOut
      ensures r.Ok? ==> Placed(old(Snapshot()), Snapshot()) && g in groups && groups[g].isAllocated
      ensures g !in old(groups) ==> r == Err(UnknownGroup(g))
      ensures g in old(groups) && old(groups)[g].isAllocated ==> r == Ok(None) && Snapshot() == old(Snapshot())
      ensures r.Ok? && r.value.Some? ==> g in old(groups) && !old(groups)[g].isAllocated
      ensures r.Ok? && r.value.Some? ==> LandedAt(Snapshot(), g, r.value.value)
    {
      if g !in groups {
        return Err(UnknownGroup(g)), allow;
      }
      if groups[g].isAllocated {
        return Ok(None), allow;
      }
      var placed;
      placed, allowOut := AllocateAndMerge(g, allow);
      if placed.Err? {
        return Err(placed.error), allowOut;
      }
      LandedAddressed(groups[g], placed.value, MaxLo(allowOut), MinHi(allowOut), image, old(newOpAddrs), newOpAddrs);
      r := Ok(Some(placed.value));
    }

    /** Places, before group `gId`, every group not yet allocated that holds
        an inline 2-byte LEA into it, and narrows the window to 0x6000 bytes
        below and 0x5FFF above each such group's address. On success every
        such group is allocated; `pushed` lists the groups this loop placed
        itself with their addresses, each one's margin window pushed. */
    method AllocateReferrers(gId: int, allow: seq<Window>)
      returns (r: Result<(), Fault>, allowOut: seq<Window>, ghost pushed: seq<(int, int)>)
      requires |allow| > 0
      modifies this, free
      decreases Unallocated(), 2
      ensures Grows(old(Snapshot()), Snapshot()) && allow <= allowOut
      ensures r.Ok? ==> Placed(old(Snapshot()), Snapshot())
      ensures r.Ok? ==> AllAllocated(Snapshot(), Referrers(links, opcodes, gId))
      ensures Margins(Snapshot(), old(groups), Referrers(links, opcodes, gId), pushed, allowOut)
    {
      ghost var s0 := Snapshot();
      var srcs := Referrers(links, opcodes, gId);
      allowOut := allow;
      pushed := [];
      var i := 0;
      while i < |srcs|
        invariant 0 <= i <= |srcs|
        invariant Grows(s0, Snapshot()) && Placed(s0, Snapshot()) && allow <= allowOut
        invariant AllAllocated(Snapshot(), srcs[..i])
        invariant Margins(Snapshot(), s0.groups, srcs, pushed, allowOut)
      {
        ghost var s1 := Snapshot();
        ghost var w1 := allowOut;
        GrowsPending(s0, s1);
        var off;
        off, allowOut := Visit(srcs[i], allowOut);
        ghost var s2 := Snapshot();
        GrowsTrans(s0, s1, s2);
        MarginsKept(s1, s2, s0.groups, srcs, pushed, w1, allowOut);
        AllocatedKept(s1, s2, srcs[..i]);
        if off.Err? {
          return Err(off.error), allowOut, pushed;
        }
        PlacedTrans(s0, s1, s2);
        AllocatedPush(s2, srcs, i);
        if off.value.Some? {
          ghost var w2 := allowOut;
          allowOut := allowOut + [Margin(off.value.value)];
          MarginsPush(s0, s1, s2, srcs, i, pushed, w2, off.value.value);
          pushed := pushed + [(srcs[i], off.value.value)];
        }
        i := i + 1;
      }
      assert srcs[..i] == srcs;
      r := Ok(());
    }

    /** Gives the instructions of group `gId` consecutive addresses from
        `base` on, in the group's order, and handles the inline LEAs of every
        instruction that carries them. On success every instruction has the
        address of the bytes before it, and none had one before, and the
        result is the address after the last one. */
    method PlaceOps(gId: int, base: int) returns (r: Result<int, Fault>)
      requires gId in groups && groups[gId].isAllocated
      modifies this, free
      decreases Unallocated(), 3
      ensures Grows(old(Snapshot()), Snapshot())
      ensures r.Ok? ==> Placed(old(Snapshot()), Snapshot())
      ensures r.Ok? ==> r.value == base + |Merged(old(groups)[gId].ops)|
      ensures r.Ok? ==> Assigned(old(newOpAddrs), newOpAddrs, old(groups)[gId].ops, base)
    {
      ghost var s0 := Snapshot();
      var ops := groups[gId].ops;
      var at := base;
      var i := 0;
      while i < |ops|
        invariant 0 <= i <= |ops|
        invariant Grows(s0, Snapshot()) && Placed(s0, Snapshot())
        invariant at == base + |Merged(ops[..i])|
        invariant Assigned(s0.newOpAddrs, newOpAddrs, ops[..i], base)
      {
        var opid := ops[i].0;
        var op := ops[i].1;
        if opid in newOpAddrs {
          return Err(AlreadyAssigned(opid, newOpAddrs[opid]));
        }
        ghost var s1 := Snapshot();
        AssignStep(s0.newOpAddrs, newOpAddrs, ops, i, base, at);
        newOpAddrs := newOpAddrs[opid := at];
        AssignGrows(s0, s1, Snapshot(), opid, at);
        if |op.data| > 0 && op.data[0] == 0x09 {
          if op.paramsOffset.None? {
            return Err(NoOffset);
          }
          var params := at + op.paramsOffset.value;
          RecordSelfRefs(opid, params);
          ghost var s2 := Snapshot();
          GrowsPending(s0, s2);
          var leas := PlaceLeaRefs(gId, opid, params);
          ghost var s3 := Snapshot();
          GrowsTrans(s0, s2, s3);
          if leas.Err? {
            return Err(leas.error);
          }
          PlacedTrans(s0, s2, s3);
          AssignedGrows(s0.newOpAddrs, s2.newOpAddrs, s3.newOpAddrs, ops[..i + 1], base);
        }
        MergedStep(ops, i);
        at := at + |op.data|;
        i := i + 1;
      }
      assert ops[..i] == ops;
      r := Ok(at);
    }

    /** Records the inline LEAs of instruction `opid` into its own group,
        whose parameters start at `params`. */
    method RecordSelfRefs(opid: int, params: int)
      modifies this
      ensures inlineRef == PutAll(old(inlineRef), params, SelfRefs(links, opid))
      ensures KeptKeys(old(inlineRef), inlineRef)
      ensures groups == old(groups) && newOpAddrs == old(newOpAddrs) && image == old(image)
    {
      var refs := SelfRefs(links, opid);
      var i := 0;
      while i < |refs|
        invariant 0 <= i <= |refs|
        invariant PutAll(old(inlineRef), params, refs) == PutAll(inlineRef, params, refs[i..])
        invariant KeptKeys(old(inlineRef), inlineRef)
        invariant groups == old(groups) && newOpAddrs == old(newOpAddrs) && image == old(image)
      {
        assert refs[i..][1..] == refs[i + 1..];
        Record(params + refs[i].leaOffset, refs[i].reference);
        i := i + 1;
      }
    }

    /** Records the inline LEAs of instruction `opid` of group `gId` to other
        groups, whose parameters start at `params`, and places each target
        group not yet allocated within a signed 16-bit distance of its LEA.
        On success every LEA's address is recorded and every target group is
        allocated. */
    method PlaceLeaRefs(gId: int, opid: int, params: int) returns (r: Result<(), Fault>)
      modifies this, free
      decreases Unallocated(), 2
      ensures Grows(old(Snapshot()), Snapshot())
      ensures r.Ok? ==> Placed(old(Snapshot()), Snapshot())
      ensures r.Ok? ==> Recorded(inlineRef, params, LeaRefs(links, opcodes, gId, opid))
      ensures r.Ok? ==> TargetsAllocated(Snapshot(), LeaRefs(links, opcodes, gId, opid))
    {
      ghost var s0 := Snapshot();
      var refs := LeaRefs(links, opcodes, gId, opid);
      var i := 0;
      while i < |refs|
        invariant 0 <= i <= |refs|
        invariant Grows(s0, Snapshot()) && Placed(s0, Snapshot())
        invariant Recorded(inlineRef, params, refs[..i]) && TargetsAllocated(Snapshot(), refs[..i])
      {
        var l := refs[i];
        var at := params + l.leaOffset;
        ghost var s0b := Snapshot();
        Record(at, l.reference);
        ghost var s1 := Snapshot();
        RecordedPush(s0b, s1, params, refs, i);
        GrowsPending(s0, s1);
        var placed, _ := Visit(l.refGroup, [Around(at)]);
        ghost var s2 := Snapshot();
        GrowsTrans(s0, s1, s2);
        if placed.Err? {
          return Err(placed.error);
        }
        PlacedTrans(s0, s1, s2);
        TargetsPush(s1, s2, params, refs, i);
        i := i + 1;
      }
      assert refs[..i] == refs;
      r := Ok(());
    }

    /** `mergeScripts`: places every group not allocated yet, in the order
        the groups were created, each in the whole ROM. On success every
        group is allocated and every instruction has its new address. */
    method MergeScripts(order: seq<int>) returns (r: Result<(), Fault>)
      requires forall g :: g in groups <==> g in order
      requires forall g :: g in groups ==> !groups[g].isAllocated
      modifies this, free
      ensures Grows(old(Snapshot()), Snapshot())
      ensures r.Ok? ==> forall g :: g in groups ==> groups[g].isAllocated && HasAddresses(groups[g].ops, newOpAddrs)
    {
      ghost var s0 := Snapshot();
      var i := 0;
      while i < |order|
        invariant 0 <= i <= |order|
        invariant Grows(s0, Snapshot()) && Placed(s0, Snapshot())
        invariant forall g :: g in order[..i] ==> g in groups && g !in Unallocated()
      {
        var g := order[i];
        ghost var s1 := Snapshot();
        var placed, _ := Visit(g, [Window(RomMinAddr, RomMaxAddr)]);
        ghost var s2 := Snapshot();
        GrowsTrans(s0, s1, s2);
        if placed.Err? {
          return Err(placed.error);
        }
        PlacedTrans(s0, s1, s2);
        GrowsPending(s1, s2);
        PrefixStep(order, i);
        i := i + 1;
      }
      assert order[..i] == order;
      r := Ok(());
    }
  }

  lemma InlineStart(links: seq<Link>, rows: seq<OpRow>, g: int)
    ensures InlineTableWindows(links, rows, g) == [] + InlineTableWindows(links[0..], rows, g)
  {
    assert links[0..] == links;
  }

  lemma InlineStep(links: seq<Link>, rows: seq<OpRow>, g: int, i: int, ws: seq<Window>)
    requires 0 <= i < |links|
    ensures var l := links[i];
      var here := if l.kind == LinkKind.LeaTable && GroupOf(rows, l.opcode) == Some(g) then [Around(l.refTable)] else [];
      ws + InlineTableWindows(links[i..], rows, g) == (ws + here) + InlineTableWindows(links[i + 1..], rows, g)
  {
    assert links[i..][0] == links[i] && links[i..][1..] == links[i + 1..];
  }

  lemma InlineEnd(links: seq<Link>, rows: seq<OpRow>, g: int, ws: seq<Window>)
    ensures ws + InlineTableWindows(links[|links|..], rows, g) == ws
  {
    assert links[|links|..] == [];
    assert ws + [] == ws;
  }

  lemma PrefixStep<T>(xs: seq<T>, i: int)
    requires 0 <= i < |xs|
    ensures xs[..i + 1] == xs[..i] + [xs[i]]
  {
  }

  /** The window `merge_AllocateAndMerge` pushes for a referrer placed at
      `addr`: 0x6000 bytes below it to 0x5FFF above it. */
  function Margin(addr: int): Window {
    Window(addr - 0x6000, addr + 0x5FFF)
  }

  /** Every instruction of `ops` has, in `m`, the address of the bytes
      before it counted from `base`. */
  predicate AddressedFrom(m: map<int, int>, ops: seq<(int, Opcodes.Emitted)>, base: int) {
    forall j :: 0 <= j < |ops| ==> ops[j].0 in m && m[ops[j].0] == base + |Merged(ops[..j])|
  }

  /** Group `g` is allocated and its instructions sit from `addr` on. */
  predicate LandedAt(s: Snap, g: int, addr: int) {
    g in s.groups && s.groups[g].isAllocated && AddressedFrom(s.newOpAddrs, s.groups[g].ops, addr)
  }

  /** Every group of `gs` is allocated. */
  predicate AllAllocated(s: Snap, gs: seq<int>) {
    forall k :: 0 <= k < |gs| ==> gs[k] in s.groups && s.groups[gs[k]].isAllocated
  }

  /** The group every LEA of `refs` points into is allocated. */
  predicate TargetsAllocated(s: Snap, refs: seq<LeaRef>) {
    forall k :: 0 <= k < |refs| ==> refs[k].refGroup in s.groups && s.groups[refs[k].refGroup].isAllocated
  }

  /** The address of every LEA of `refs`, in parameters starting at
      `params`, is a key of the recorded LEAs `m`. */
  predicate Recorded(m: seq<(int, int)>, params: int, refs: seq<LeaRef>) {
    forall k :: 0 <= k < |refs| ==> Lookup(m, params + refs[k].leaOffset).Some?
  }

  /** Each entry of `pushed` is a group of `srcs` that was not allocated in
      `before`, now sits at the address listed, and has its margin window
      among `ws`. */
  predicate Margins(s: Snap, before: map<int, GroupState>, srcs: seq<int>, pushed: seq<(int, int)>, ws: seq<Window>) {
    forall k :: 0 <= k < |pushed| ==>
      && pushed[k].0 in srcs && pushed[k].0 in before && !before[pushed[k].0].isAllocated
      && LandedAt(s, pushed[k].0, pushed[k].1) && Margin(pushed[k].1) in ws
  }

  lemma LandedAddressed(g: GroupState, addr: int, lo: int, hi: int, img: seq<int>, before: map<int, int>, after: map<int, int>)
    requires Landed(g, addr, lo, hi, img, before, after)
    ensures AddressedFrom(after, g.ops, addr)
  {
  }

  lemma AllocatedKept(a: Snap, b: Snap, gs: seq<int>)
    requires Grows(a, b) && AllAllocated(a, gs)
    ensures AllAllocated(b, gs)
  {
    forall k | 0 <= k < |gs|
      ensures gs[k] in b.groups && b.groups[gs[k]].isAllocated
    {
      var g := gs[k];
      assert g in a.groups && a.groups[g].isAllocated;
      assert b.groups[g] == a.groups[g];
    }
  }

  lemma AllocatedPush(s: Snap, gs: seq<int>, i: int)
    requires 0 <= i < |gs| && AllAllocated(s, gs[..i])
    requires gs[i] in s.groups && s.groups[gs[i]].isAllocated
    ensures AllAllocated(s, gs[..i + 1])
  {
    assert forall k :: 0 <= k < i ==> gs[..i + 1][k] == gs[..i][k];
  }

  lemma LandedAtKept(a: Snap, b: Snap, g: int, addr: int)
    requires Grows(a, b) && LandedAt(a, g, addr)
    ensures LandedAt(b, g, addr)
  {
    assert b.groups[g] == a.groups[g];
    forall j | 0 <= j < |a.groups[g].ops|
      ensures a.groups[g].ops[j].0 in b.newOpAddrs
              && b.newOpAddrs[a.groups[g].ops[j].0] == addr + |Merged(a.groups[g].ops[..j])|
    {
      var o := a.groups[g].ops[j].0;
      assert o in a.newOpAddrs;
    }
  }

  lemma MarginsKept(a: Snap, b: Snap, before: map<int, GroupState>, srcs: seq<int>, pushed: seq<(int, int)>, w1: seq<Window>, w2: seq<Window>)
    requires Grows(a, b) && w1 <= w2 && Margins(a, before, srcs, pushed, w1)
    ensures Margins(b, before, srcs, pushed, w2)
  {
    forall k | 0 <= k < |pushed|
      ensures LandedAt(b, pushed[k].0, pushed[k].1) && Margin(pushed[k].1) in w2
    {
      LandedAtKept(a, b, pushed[k].0, pushed[k].1);
    }
  }

  /** A referrer the loop has just placed joins the list. */
  lemma MarginsPush(s0: Snap, s1: Snap, s2: Snap, srcs: seq<int>, i: int, pushed: seq<(int, int)>, ws: seq<Window>, addr: int)
    requires 0 <= i < |srcs| && Grows(s0, s1) && Margins(s2, s0.groups, srcs, pushed, ws)
    requires srcs[i] in s1.groups && !s1.groups[srcs[i]].isAllocated && LandedAt(s2, srcs[i], addr)
    ensures Margins(s2, s0.groups, srcs, pushed + [(srcs[i], addr)], ws + [Margin(addr)])
  {
    assert srcs[i] in s0.groups;
    assert !s0.groups[srcs[i]].isAllocated;
    var p := pushed + [(srcs[i], addr)];
    var w := ws + [Margin(addr)];
    forall k | 0 <= k < |p|
      ensures p[k].0 in srcs && p[k].0 in s0.groups && !s0.groups[p[k].0].isAllocated
      ensures LandedAt(s2, p[k].0, p[k].1) && Margin(p[k].1) in w
    {
      if k < |pushed| {
        assert p[k] == pushed[k];
        assert Margin(pushed[k].1) in ws;
      } else {
        assert p[k] == (srcs[i], addr);
        assert w[|ws|] == Margin(addr);
      }
    }
  }

  /** Recording the next LEA extends the recorded prefix. */
  lemma RecordedPush(a: Snap, b: Snap, params: int, refs: seq<LeaRef>, i: int)
    requires 0 <= i < |refs| && Recorded(a.refs, params, refs[..i])
    requires KeptKeys(a.refs, b.refs) && Lookup(b.refs, params + refs[i].leaOffset).Some?
    ensures Recorded(b.refs, params, refs[..i + 1])
  {
    var p := refs[..i + 1];
    forall k | 0 <= k < |p|
      ensures Lookup(b.refs, params + p[k].leaOffset).Some?
    {
      if k < i {
        assert p[k] == refs[..i][k];
      }
    }
  }

  /** A step of placement keeps the recorded LEAs and the allocated targets,
      and the target just visited joins them. */
  lemma TargetsPush(a: Snap, b: Snap, params: int, refs: seq<LeaRef>, i: int)
    requires 0 <= i < |refs| && Grows(a, b)
    requires Recorded(a.refs, params, refs[..i + 1]) && TargetsAllocated(a, refs[..i])
    requires refs[i].refGroup in b.groups && b.groups[refs[i].refGroup].isAllocated
    ensures Recorded(b.refs, params, refs[..i + 1]) && TargetsAllocated(b, refs[..i + 1])
  {
    var p := refs[..i + 1];
    forall k | 0 <= k < |p|
      ensures Lookup(b.refs, params + p[k].leaOffset).Some?
      ensures p[k].refGroup in b.groups && b.groups[p[k].refGroup].isAllocated
    {
      assert Lookup(a.refs, params + p[k].leaOffset).Some?;
      if k < i {
        assert p[k] == refs[..i][k];
        assert a.groups[p[k].refGroup].isAllocated;
        assert b.groups[p[k].refGroup] == a.groups[p[k].refGroup];
      }
    }
  }

  predicate SameContent(a: GroupState, b: GroupState) {
    a.length == b.length && a.ops == b.ops && a.hasCalls == b.hasCalls
  }

  /** The part of the importer's state that placement only ever extends:
      the groups, the new instruction addresses, the size of the image and
      the inline 2-byte LEAs recorded. */
  datatype Snap = Snap(groups: map<int, GroupState>, newOpAddrs: map<int, int>, imageSize: int, refs: seq<(int, int)>)

  function Pending(groups: map<int, GroupState>): set<int> {
    set g | g in groups && !groups[g].isAllocated
  }

  /** From `a` to `b` the same groups keep their contents, an allocated group
      is left alone, no instruction address changes, the image keeps its
      size and no recorded LEA address is dropped. */
  ghost predicate Grows(a: Snap, b: Snap) {
    && b.groups.Keys == a.groups.Keys
    && (forall g :: g in a.groups ==> SameContent(b.groups[g], a.groups[g]))
    && (forall g :: g in a.groups && a.groups[g].isAllocated ==> b.groups[g] == a.groups[g])
    && (forall o :: o in a.newOpAddrs ==> o in b.newOpAddrs && b.newOpAddrs[o] == a.newOpAddrs[o])
    && b.imageSize == a.imageSize
    && KeptKeys(a.refs, b.refs)
  }

  /** Every instruction of `ops` has a new address in `m`. */
  predicate HasAddresses(ops: seq<(int, Opcodes.Emitted)>, m: map<int, int>) {
    forall j :: 0 <= j < |ops| ==> ops[j].0 in m
  }

  lemma AddressesKept(ops: seq<(int, Opcodes.Emitted)>, m1: map<int, int>, m2: map<int, int>)
    requires HasAddresses(ops, m1) && forall o :: o in m1 ==> o in m2
    ensures HasAddresses(ops, m2)
  {
    forall j | 0 <= j < |ops|
      ensures ops[j].0 in m2
    {
      var o := ops[j].0;
      assert o in m1;
      assert o in m1 ==> o in m2;
    }
  }

  /** Every instruction of every group allocated between `a` and `b` has a
      new address in `b`. */
  predicate Placed(a: Snap, b: Snap) {
    forall g :: g in a.groups && !a.groups[g].isAllocated && g in b.groups && b.groups[g].isAllocated ==> HasAddresses(b.groups[g].ops, b.newOpAddrs)
  }

  lemma GrowsPending(a: Snap, b: Snap)
    requires Grows(a, b)
    ensures Pending(b.groups) <= Pending(a.groups)
  {
    forall g | g in Pending(b.groups)
      ensures g in Pending(a.groups)
    {
      assert g in b.groups.Keys;
    }
  }

  lemma GrowsTrans(a: Snap, b: Snap, c: Snap)
    requires Grows(a, b) && Grows(b, c)
    ensures Grows(a, c)
  {
  }

  lemma PlacedTrans(a: Snap, b: Snap, c: Snap)
    requires Placed(a, b) && Placed(b, c) && Grows(b, c)
    ensures Placed(a, c)
  {
    forall g | g in a.groups && !a.groups[g].isAllocated && g in c.groups && c.groups[g].isAllocated
      ensures HasAddresses(c.groups[g].ops, c.newOpAddrs)
    {
      if b.groups[g].isAllocated {
        assert c.groups[g] == b.groups[g];
        AddressesKept(b.groups[g].ops, b.newOpAddrs, c.newOpAddrs);
      }
    }
  }

  /** Marking an unallocated group allocated is a step of placement that
      leaves one group fewer to place. */
  lemma MarkAllocated(s0: Snap, s1: Snap, gId: int)
    requires gId in s0.groups && !s0.groups[gId].isAllocated
    requires s1 == s0.(groups := s0.groups[gId := s0.groups[gId].(isAllocated := true)])
    ensures Grows(s0, s1) && Pending(s1.groups) < Pending(s0.groups)
  {
    assert gId in Pending(s0.groups) - Pending(s1.groups);
  }

  /** Group `g` was placed at `addr`: at or after `lo`, and with its end at
      or before `hi` unless a block had to be divided (then it starts the
      window, after a pad byte); even when it needs an even address; its
      bytes are as many as its length and sit in the image at `addr`; and its
      instructions got consecutive addresses from `addr` on, which none had
      in `before`. */
  predicate Landed(g: GroupState, addr: int, lo: int, hi: int, img: seq<int>, before: map<int, int>, after: map<int, int>) {
    && lo <= addr && (addr + g.length <= hi || addr == lo + Pad(g.hasCalls, lo))
    && (g.hasCalls ==> addr % 2 == 0)
    && |Merged(g.ops)| == g.length
    && 0 <= addr && addr + g.length <= |img| && img[addr..addr + g.length] == Merged(g.ops)
    && Assigned(before, after, g.ops, addr)
  }

  lemma LandedEarlier(g: GroupState, addr: int, lo: int, hi: int, img: seq<int>, b0: map<int, int>, b1: map<int, int>, after: map<int, int>)
    requires Landed(g, addr, lo, hi, img, b1, after)
    requires forall o :: o in b0 ==> o in b1
    ensures Landed(g, addr, lo, hi, img, b0, after) && HasAddresses(g.ops, after)
  {
    AssignedEarlier(b0, b1, after, g.ops, addr);
    forall j | 0 <= j < |g.ops|
      ensures g.ops[j].0 in after
    {
      var o := g.ops[j].0;
      assert o in after && after[o] == addr + |Merged(g.ops[..j])|;
    }
  }

  /** A group placed after its allocation mark, with every group it
      placed on the way. */
  lemma Finished(s0: Snap, s1: Snap, s2: Snap, s4: Snap, gId: int)
    requires gId in s0.groups && !s0.groups[gId].isAllocated
    requires s1 == s0.(groups := s0.groups[gId := s0.groups[gId].(isAllocated := true)])
    requires Grows(s1, s2) && Placed(s1, s2) && Grows(s2, s4) && Placed(s2, s4)
    requires HasAddresses(s1.groups[gId].ops, s4.newOpAddrs)
    ensures Placed(s0, s4)
  {
    PlacedTrans(s1, s2, s4);
  }

  /** Giving a new instruction its address is a step of placement. */
  lemma AssignGrows(s0: Snap, s1: Snap, s2: Snap, opid: int, at: int)
    requires Grows(s0, s1) && Placed(s0, s1) && opid !in s1.newOpAddrs
    requires s2 == s1.(newOpAddrs := s1.newOpAddrs[opid := at])
    ensures Grows(s0, s2) && Placed(s0, s2)
  {
  }

  /** Recording the LEAs `refs` of parameters starting at `params`, in order. */
  function PutAll(m: seq<(int, int)>, params: int, refs: seq<LeaRef>): seq<(int, int)>
    decreases |refs|
  {
    if |refs| == 0 then m else PutAll(Put(m, params + refs[0].leaOffset, refs[0].reference), params, refs[1..])
  }

  /** Every instruction of `ops` got, in `after`, the address of the bytes
      before it counted from `base`, and had none in `before`. */
  predicate Assigned(before: map<int, int>, after: map<int, int>, ops: seq<(int, Opcodes.Emitted)>, base: int) {
    forall j :: 0 <= j < |ops| ==>
      ops[j].0 !in before && ops[j].0 in after && after[ops[j].0] == base + |Merged(ops[..j])|
  }

  lemma MergedStep(ops: seq<(int, Opcodes.Emitted)>, i: int)
    requires 0 <= i < |ops|
    ensures Merged(ops[..i + 1]) == Merged(ops[..i]) + ops[i].1.data
  {
    assert ops[..i + 1][..i] == ops[..i];
  }

  lemma AssignStep(before: map<int, int>, now: map<int, int>, ops: seq<(int, Opcodes.Emitted)>, i: int, base: int, at: int)
    requires 0 <= i < |ops| && at == base + |Merged(ops[..i])|
    requires Assigned(before, now, ops[..i], base)
    requires ops[i].0 !in now && (forall o :: o in before ==> o in now)
    ensures Assigned(before, now[ops[i].0 := at], ops[..i + 1], base)
  {
    var next := ops[..i + 1];
    var m := now[ops[i].0 := at];
    forall j | 0 <= j < |next|
      ensures next[j].0 !in before && next[j].0 in m && m[next[j].0] == base + |Merged(next[..j])|
    {
      assert next[..j] == ops[..j];
      if j < i {
        assert ops[..i][j] == next[j] && ops[..i][..j] == ops[..j];
        var o := ops[..i][j].0;
        assert o !in before && o in now && now[o] == base + |Merged(ops[..i][..j])|;
      } else {
        assert next[j] == ops[i];
        var o := ops[i].0;
        assert o in before ==> o in now;
      }
    }
  }

  /** Addresses assigned stay assigned as the map grows. */
  lemma AssignedGrows(before: map<int, int>, m1: map<int, int>, m2: map<int, int>, ops: seq<(int, Opcodes.Emitted)>, base: int)
    requires Assigned(before, m1, ops, base)
    requires forall o :: o in m1 ==> o in m2 && m2[o] == m1[o]
    ensures Assigned(before, m2, ops, base)
  {
    forall j | 0 <= j < |ops|
      ensures ops[j].0 !in before && ops[j].0 in m2 && m2[ops[j].0] == base + |Merged(ops[..j])|
    {
      var o := ops[j].0;
      assert o in m1 && m1[o] == base + |Merged(ops[..j])|;
    }
  }

  /** Addresses fresh for a later map were fresh for an earlier one. */
  lemma AssignedEarlier(b0: map<int, int>, b1: map<int, int>, after: map<int, int>, ops: seq<(int, Opcodes.Emitted)>, base: int)
    requires Assigned(b1, after, ops, base)
    requires forall o :: o in b0 ==> o in b1
    ensures Assigned(b0, after, ops, base)
  {
    forall j | 0 <= j < |ops|
      ensures ops[j].0 !in b0 && ops[j].0 in after && after[ops[j].0] == base + |Merged(ops[..j])|
    {
      var o := ops[j].0;
      assert o !in b1 && o in after && after[o] == base + |Merged(ops[..j])|;
      assert o in b0 ==> o in b1;
    }
  }

  /** The bytes laid out for the first `j` entries, carrying `es`, are as
      long as the first `j` of `es` together. */
  lemma {:induction false} MergedSize(ops: seq<(int, Opcodes.Emitted)>, es: seq<Opcodes.Emitted>, j: int)
    requires |ops| == |es| && 0 <= j <= |ops|
    requires forall i :: 0 <= i < |ops| ==> ops[i].1 == es[i]
    ensures |Merged(ops[..j])| == Opcodes.SumData(es[..j])
    decreases j
  {
    if j > 0 {
      MergedSize(ops, es, j - 1);
      MergedStep(ops, j - 1);
      assert es[..j][..j - 1] == es[..j - 1];
    }
  }

  /** The entries `ops` hold the instructions `records` in order, and every
      inline-code or call instruction among them got, in `after`, an address
      that puts its length word at an even ROM address. */
  predicate WordsLandEven(records: seq<Opcodes.OpRecord>, ops: seq<(int, Opcodes.Emitted)>, after: map<int, int>) {
    && |ops| == |records|
    && forall j :: 0 <= j < |records| && Opcodes.IsVariable(records[j].name) ==>
         && ops[j].0 == records[j].id && records[j].id in after
         && ops[j].1.paramsOffset.Some?
         && (after[records[j].id] + ops[j].1.paramsOffset.value - 2) % 2 == 0
  }

  /** A group rebuilt by `BuildGroup` from instructions with distinct ids,
      stored as `Loaded` and landed at `addr` by the merge: every inline-code
      or call instruction has its length word at an even ROM address, which
      is what the pad byte of `buildTranslatedScripts` is for. */
  lemma PlacedWordsEven(emit: Opcodes.Emitter, records: seq<Opcodes.OpRecord>, g: Opcodes.Group,
                        addr: int, lo: int, hi: int, img: seq<int>, before: map<int, int>, after: map<int, int>)
    requires Opcodes.KeepsCalls(emit) && Opcodes.DistinctIds(records)
    requires Opcodes.Assemble(emit, records, 0).Ok?
    requires |Opcodes.Assemble(emit, records, 0).value.1| == |records|
    requires g.ops == Opcodes.HashOf(records, Opcodes.Assemble(emit, records, 0).value.1)
    requires g.hasCalls <==> exists j :: 0 <= j < |records| && Opcodes.IsVariable(records[j].name)
    requires Landed(Loaded(g), addr, lo, hi, img, before, after)
    ensures WordsLandEven(records, g.ops, after)
  {
    var es := Opcodes.Assemble(emit, records, 0).value.1;
    Opcodes.StoredEven(emit, records);
    var state := Loaded(g);
    PlacedFrom(records, es, state.ops, state.hasCalls, before, after, addr);
  }

  /** `PlacedWordsEven` once the entries are known to be the instructions in
      order with their length words at even offsets of the group. */
  lemma PlacedFrom(records: seq<Opcodes.OpRecord>, es: seq<Opcodes.Emitted>, ops: seq<(int, Opcodes.Emitted)>,
                   hasCalls: bool, before: map<int, int>, after: map<int, int>, addr: int)
    requires Opcodes.StoredInOrder(records, es, ops)
    requires Assigned(before, after, ops, addr)
    requires hasCalls <==> exists j :: 0 <= j < |records| && Opcodes.IsVariable(records[j].name)
    requires hasCalls ==> addr % 2 == 0
    ensures WordsLandEven(records, ops, after)
  {
    forall j | 0 <= j < |records| && Opcodes.IsVariable(records[j].name)
      ensures && ops[j].0 == records[j].id && records[j].id in after
              && ops[j].1.paramsOffset.Some?
              && (after[records[j].id] + ops[j].1.paramsOffset.value - 2) % 2 == 0
    {
      WordLands(records, es, ops, before, after, addr, j);
    }
  }

  lemma WordLands(records: seq<Opcodes.OpRecord>, es: seq<Opcodes.Emitted>, ops: seq<(int, Opcodes.Emitted)>,
                  before: map<int, int>, after: map<int, int>, addr: int, j: int)
    requires |es| == |records| == |ops| && 0 <= j < |ops| && addr % 2 == 0
    requires forall i :: 0 <= i < |ops| ==> ops[i] == (records[i].id, es[i])
    requires Opcodes.WordEven(Opcodes.SumData(es[..j]), es[j])
    requires Assigned(before, after, ops, addr)
    ensures records[j].id in after && es[j].paramsOffset.Some?
    ensures (after[records[j].id] + es[j].paramsOffset.value - 2) % 2 == 0
  {
    assert ops[j].0 in after && after[ops[j].0] == addr + |Merged(ops[..j])|;
    MergedSize(ops, es, j);
  }

  /** Where an allocation lands relative to its window: at or after its
      start, and before its end unless a block had to be divided, in which
      case it starts the window (after a pad byte); even when asked. */
  lemma AllocatedInWindow(blocks: seq<Block>, required: int, even: bool, lo: int, hi: int)
    requires Allocate(blocks, required, even, lo, hi).Ok?
    ensures var addr := Allocate(blocks, required, even, lo, hi).value.addr;
      && lo <= addr && (addr + required <= hi || addr == lo + Pad(even, lo))
      && (even ==> addr % 2 == 0)
  {
    if Allocate(blocks, required, even, lo, hi).value.how.Divided? {
      DivideAllocation(blocks, required, even, lo, hi);
    } else {
      EdgeAllocation(blocks, required, even, lo, hi);
    }
  }

  /** `acc` in front of the windows of a walk that has not failed. */
  function Prefixed(acc: seq<Window>, r: Result<seq<Window>, Fault>): Result<seq<Window>, Fault> {
    if r.Ok? then Ok(acc + r.value) else r
  }

  lemma StaticStep(ps: seq<PointerRow>, i: int, span: Option<Window>, ws: seq<Window>)
    requires 0 <= i < |ps| && span.Some?
    ensures var p := ps[i];
      var here := if span.value.lo <= p.ptrRef <= span.value.hi then PointerWindow(p) else Ok(None);
      Prefixed(ws, StaticWindows(ps[i..], span)) ==
        if here.Err? then Err(here.error)
        else Prefixed(ws + (if here.value.Some? then [here.value.value] else []), StaticWindows(ps[i + 1..], span))
  {
    var p := ps[i];
    var here := if span.value.lo <= p.ptrRef <= span.value.hi then PointerWindow(p) else Ok(None);
    assert ps[i..][0] == p && ps[i..][1..] == ps[i + 1..];
    if here.Ok? {
      var rest := StaticWindows(ps[i + 1..], span);
      var w := if here.value.Some? then [here.value.value] else [];
      if rest.Ok? {
        assert StaticWindows(ps[i..], span) == Ok(w + rest.value);
        assert ws + (w + rest.value) == (ws + w) + rest.value;
      } else {
        assert StaticWindows(ps[i..], span) == rest;
      }
    }
  }

  lemma PrefixedEmpty(r: Result<seq<Window>, Fault>)
    ensures Prefixed([], r) == r
  {
    if r.Ok? {
      assert [] + r.value == r.value;
    }
  }
}
