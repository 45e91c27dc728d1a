/** The back-patching passes that run once every group has its new address
    (`buildMergeExtraBlocks`, `fixStaticPointers`, `fixSubPointers`,
    `fixLeaPointers` and `fixExtraBlocks` of Ruby/main.rb, called in that
    order).

    Each pass walks its table and writes a few bytes per row into the
    patched image. The model states each pass as the list of writes its rows
    ask for (`Item`s, a fault where the Ruby code would raise or crash on a
    missing address), and `Apply` performs them in order. The pass methods
    loop over the rows as the Ruby code does and are proved to compute
    `Apply` of that list. What the writes achieve is then proved once for
    all passes: a write that no other write overlaps is in the final image
    (`Survives`), and the bytes of every kind of write read back, with the
    exporter's own readers, as the address the row asked for. */
module Fixups {
  import opened Wrappers
  import opened Bytes
  import opened Pointers
  import opened Allocator
  import opened Importer
  import Opcodes

  // ---------------------------------------------------------------------------
  // Writes and their application
  // ---------------------------------------------------------------------------

  /** `bytes` to be stored from `addr` on. */
  datatype Write = Write(addr: int, bytes: seq<int>)

  /** A write a row asks for, or the fault that stops the pass at that row. */
  type Item = Result<Write, Fault>

  /** The image holds the bytes of `w` at their place. */
  predicate Holds(img: seq<int>, w: Write) {
    0 <= w.addr && w.addr + |w.bytes| <= |img| && img[w.addr..w.addr + |w.bytes|] == w.bytes
  }

  /** One item: a fault stops the pass; a write must lie inside the image
      (the image has the fixed size of the cartridge). */
  function Step(img: seq<int>, it: Item): (r: Result<seq<int>, Fault>)
    ensures r.Ok? ==> it.Ok? && |r.value| == |img| && Holds(r.value, it.value)
    ensures r.Ok? ==> forall i :: 0 <= i < |img| && !(it.value.addr <= i < it.value.addr + |it.value.bytes|) ==>
                        r.value[i] == img[i]
    ensures it.Ok? && r.Err? ==> r == Err(WritePastEnd(it.value.addr))
  {
    match it
    case Err(e) => Err(e)
    case Ok(w) =>
      if 0 <= w.addr && w.addr + |w.bytes| <= |img| then Ok(Patch(img, w.addr, w.bytes))
      else Err(WritePastEnd(w.addr))
  }

  /** The items in order; the first that fails stops the pass. */
  function Apply(img: seq<int>, items: seq<Item>): (r: Result<seq<int>, Fault>)
    ensures r.Ok? ==> |r.value| == |img|
    decreases |items|
  {
    if |items| == 0 then Ok(img)
    else
      var next :- Step(img, items[0]);
      Apply(next, items[1..])
  }

  /** Carrying on with `items` after `r`, unless `r` failed. */
  function Then(r: Result<seq<int>, Fault>, items: seq<Item>): Result<seq<int>, Fault> {
    if r.Err? then r else Apply(r.value, items)
  }

  /** Two writes that leave each other's bytes alone: they do not overlap,
      or they are the same write. */
  predicate Compatible(a: Write, b: Write) {
    a == b || a.addr + |a.bytes| <= b.addr || b.addr + |b.bytes| <= a.addr
  }

  /** No write of a pass disturbs another. */
  predicate Separate(items: seq<Item>) {
    forall j, k :: 0 <= j < |items| && 0 <= k < |items| && items[j].Ok? && items[k].Ok? ==>
      Compatible(items[j].value, items[k].value)
  }

  lemma Advance(img: seq<int>, it: Item, rest: seq<Item>)
    ensures Apply(img, [it] + rest) == Then(Step(img, it), rest)
  {
    assert ([it] + rest)[0] == it && ([it] + rest)[1..] == rest;
  }

  lemma {:induction false} ApplyAppend(img: seq<int>, a: seq<Item>, b: seq<Item>)
    ensures Apply(img, a + b) == Then(Apply(img, a), b)
    decreases |a|
  {
    if |a| == 0 {
      assert a + b == b;
    } else {
      assert (a + b)[0] == a[0] && (a + b)[1..] == a[1..] + b;
      var s := Step(img, a[0]);
      if s.Ok? {
        ApplyAppend(s.value, a[1..], b);
      }
    }
  }

  /** A pass that succeeds met no fault. */
  lemma {:induction false} ApplyAllOk(img: seq<int>, items: seq<Item>)
    requires Apply(img, items).Ok?
    ensures forall k :: 0 <= k < |items| ==> items[k].Ok?
    decreases |items|
  {
    if |items| > 0 {
      var next := Step(img, items[0]).value;
      ApplyAllOk(next, items[1..]);
      assert forall k :: 1 <= k < |items| ==> items[k] == items[1..][k - 1];
    }
  }

  /** A write compatible with `w` leaves `w`'s bytes in place. */
  lemma StepKeeps(img: seq<int>, x: Write, w: Write)
    requires Holds(img, w) && Compatible(x, w)
    requires Step(img, Ok(x)).Ok?
    ensures Holds(Step(img, Ok(x)).value, w)
  {
    var next := Step(img, Ok(x)).value;
    if x != w {
      var n := |w.bytes|;
      forall i | w.addr <= i < w.addr + n
        ensures next[i] == img[i]
      {
      }
      assert next[w.addr..w.addr + n] == img[w.addr..w.addr + n];
    }
  }

  lemma {:induction false} KeepHolds(img: seq<int>, items: seq<Item>, w: Write)
    requires Holds(img, w) && Apply(img, items).Ok?
    requires forall j :: 0 <= j < |items| && items[j].Ok? ==> Compatible(items[j].value, w)
    ensures Holds(Apply(img, items).value, w)
    decreases |items|
  {
    if |items| > 0 {
      StepKeeps(img, items[0].value, w);
      var next := Step(img, items[0]).value;
      assert forall j :: 0 <= j < |items| - 1 ==> items[1..][j] == items[j + 1];
      KeepHolds(next, items[1..], w);
    }
  }

  /** In a pass whose writes do not disturb each other, every write is in
      the final image. */
  lemma {:induction false} Survives(img: seq<int>, items: seq<Item>, k: int)
    requires Apply(img, items).Ok? && Separate(items) && 0 <= k < |items| && items[k].Ok?
    ensures Holds(Apply(img, items).value, items[k].value)
    decreases |items|
  {
    var next := Step(img, items[0]).value;
    assert forall j :: 0 <= j < |items| - 1 ==> items[1..][j] == items[j + 1];
    if k == 0 {
      KeepHolds(next, items[1..], items[0].value);
    } else {
      Survives(next, items[1..], k - 1);
    }
  }

  /** Every item of a pass that succeeds is a write, and it is in the final
      image when no other write disturbs it. */
  lemma Lands(img: seq<int>, items: seq<Item>, it: Item)
    requires Apply(img, items).Ok? && Separate(items) && it in items
    ensures it.Ok? && Holds(Apply(img, items).value, it.value)
  {
    var k :| 0 <= k < |items| && items[k] == it;
    ApplyAllOk(img, items);
    Survives(img, items, k);
  }

  /** Writing bytes that are already there changes nothing. */
  lemma PatchSame(img: seq<int>, w: Write)
    requires Holds(img, w)
    ensures Patch(img, w.addr, w.bytes) == img
  {
    var p := Patch(img, w.addr, w.bytes);
    forall i | 0 <= i < |img|
      ensures p[i] == img[i]
    {
      if w.addr <= i < w.addr + |w.bytes| {
        assert p[i] == p[w.addr..w.addr + |w.bytes|][i - w.addr];
        assert img[i] == img[w.addr..w.addr + |w.bytes|][i - w.addr];
      }
    }
  }

  /** The byte-by-byte copy loop every pass writes with. */
  method WriteBytes(img: seq<int>, w: Write) returns (r: Result<seq<int>, Fault>)
    ensures r == Step(img, Ok(w))
  {
    if !(0 <= w.addr && w.addr + |w.bytes| <= |img|) {
      return Err(WritePastEnd(w.addr));
    }
    var cur := img;
    for i := 0 to |w.bytes|
      invariant cur == img[..w.addr] + w.bytes[..i] + img[w.addr + i..]
    {
      assert w.bytes[..i + 1] == w.bytes[..i] + [w.bytes[i]];
      cur := cur[w.addr + i := w.bytes[i]];
    }
    assert w.bytes[..|w.bytes|] == w.bytes;
    return Ok(cur);
  }

  /** The new address of an instruction; a missing one is a `nil` the Ruby
      code crashes on. */
  function AddrOf(addrs: map<int, int>, id: int): (r: Result<int, Fault>)
    ensures r.Ok? <==> id in addrs
    ensures r.Ok? ==> r.value == addrs[id]
  {
    if id in addrs then Ok(addrs[id]) else Err(NoAddress(id))
  }

  predicate Is32(n: int) {
    0 <= n < 0x1_0000_0000
  }

  // ---------------------------------------------------------------------------
  // Where inside an instruction the operands are
  // ---------------------------------------------------------------------------

  /** `srcAddr += evenAddr + 3` of `fixLeaPointers`: an inline-code
      instruction's bytes start after its opcode byte, the padding to an
      even address and its length word. */
  function LeaSite(src: int): (r: int)
    ensures r == Opcodes.Aligned(src) + 2 && r % 2 == 0
  {
    src + (if (src + 1) % 2 != 0 then 1 else 0) + 3
  }

  /** `srcAddr + evenByte + 7` of `fixExtraBlocks`: a call's variables
      follow its length word and its 4-byte target. */
  function ExtraSite(src: int): (r: int)
    ensures r == Opcodes.Aligned(src) + 6 && r % 2 == 0
  {
    src + (if src % 2 != 0 then 0 else 1) + 7
  }

  // ---------------------------------------------------------------------------
  // `fixSubPointers` and the first two loops of `fixLeaPointers`
  // ---------------------------------------------------------------------------

  /** The kinds of link these passes rewrite. */
  predicate Patched(kind: LinkKind) {
    kind == Sub || kind == Lea4 || kind == LinkKind.LeaTable
  }

  /** The write a link asks for: a jump or gosub gets the 4-byte address of
      its target after its opcode byte; a 4-byte LEA gets the target's
      address at its offset into the inline code; a 2-byte LEA to a table
      gets the table's distance from the operand. */
  function LinkItem(l: Link, addrs: map<int, int>): Item
    requires Patched(l.kind)
  {
    if l.kind == Sub then
      var dst :- AddrOf(addrs, l.reference);
      var src :- AddrOf(addrs, l.opcode);
      Ok(Write(src + 1, NumToBytes(dst, 4, false)))
    else if l.kind == Lea4 then
      var src :- AddrOf(addrs, l.opcode);
      var dst :- AddrOf(addrs, l.reference);
      Ok(Write(LeaSite(src) + l.leaOffset, NumToBytes(dst, 4, false)))
    else
      var src :- AddrOf(addrs, l.opcode);
      var at := LeaSite(src) + l.leaOffset;
      var p :- CalculatePtr(l.refTable, at, Rel, false);
      Ok(Write(at, NumToBytes(p.0, 2, false)))
  }

  /** The writes of the links of one kind, in table order. */
  function LinkItems(links: seq<Link>, kind: LinkKind, addrs: map<int, int>): seq<Item>
    requires Patched(kind)
  {
    if |links| == 0 then []
    else (if links[0].kind == kind then [LinkItem(links[0], addrs)] else []) + LinkItems(links[1..], kind, addrs)
  }

  /** The image reads the link's target back where the instruction keeps it:
      with `refDirectPointer` for the 4-byte forms (any 32-bit address), with
      `refRelPointer` from the operand itself for the 2-byte form (any
      distance a signed 16-bit word holds). */
  predicate LinkResolved(img: seq<int>, l: Link, addrs: map<int, int>) {
    l.opcode in addrs &&
    var src := addrs[l.opcode];
    if l.kind == Sub then
      l.reference in addrs && (Is32(addrs[l.reference]) ==> RefDirectPointer(img, src + 1) == Ok(addrs[l.reference]))
    else if l.kind == Lea4 then
      l.reference in addrs &&
      (Is32(addrs[l.reference]) ==> RefDirectPointer(img, LeaSite(src) + l.leaOffset) == Ok(addrs[l.reference]))
    else
      var at := LeaSite(src) + l.leaOffset;
      -0x8000 <= l.refTable - at <= 0x7FFF ==> RefRelPointer(img, at, at, false) == Ok((l.refTable, false))
  }

  lemma LinkReadBack(img: seq<int>, l: Link, addrs: map<int, int>)
    requires Patched(l.kind) && LinkItem(l, addrs).Ok? && Holds(img, LinkItem(l, addrs).value)
    ensures LinkResolved(img, l, addrs)
  {
    if l.kind == LinkKind.LeaTable {
      TableLinkReadBack(img, l, addrs);
    } else {
      DirectLinkReadBack(img, l, addrs);
    }
  }

  lemma DirectLinkReadBack(img: seq<int>, l: Link, addrs: map<int, int>)
    requires l.kind in {Sub, Lea4} && LinkItem(l, addrs).Ok? && Holds(img, LinkItem(l, addrs).value)
    ensures l.reference in addrs && l.opcode in addrs
    ensures Is32(addrs[l.reference]) ==> RefDirectPointer(img, LinkItem(l, addrs).value.addr) == Ok(addrs[l.reference])
  {
    var w := LinkItem(l, addrs).value;
    PatchSame(img, w);
    if Is32(addrs[l.reference]) {
      DirectRoundTrip(img, w.addr, addrs[l.reference]);
    }
  }

  lemma TableLinkReadBack(img: seq<int>, l: Link, addrs: map<int, int>)
    requires l.kind == LinkKind.LeaTable && LinkItem(l, addrs).Ok? && Holds(img, LinkItem(l, addrs).value)
    ensures l.opcode in addrs
    ensures var at := LeaSite(addrs[l.opcode]) + l.leaOffset;
      -0x8000 <= l.refTable - at <= 0x7FFF ==> RefRelPointer(img, at, at, false) == Ok((l.refTable, false))
  {
    var w := LinkItem(l, addrs).value;
    PatchSame(img, w);
    var at := LeaSite(addrs[l.opcode]) + l.leaOffset;
    if -0x8000 <= l.refTable - at <= 0x7FFF {
      RelRoundTrip(img, at, at, l.refTable, false);
    }
  }

  lemma {:induction false} LinkHas(links: seq<Link>, kind: LinkKind, addrs: map<int, int>, l: Link)
    requires Patched(kind) && l in links && l.kind == kind
    ensures LinkItem(l, addrs) in LinkItems(links, kind, addrs)
    decreases |links|
  {
    if links[0] != l {
      LinkHas(links[1..], kind, addrs, l);
    }
  }

  /** One loop of `fixSubPointers` / `fixLeaPointers` over the links of one
      kind. */
  method FixLinks(img: seq<int>, links: seq<Link>, kind: LinkKind, addrs: map<int, int>) returns (r: Result<seq<int>, Fault>)
    requires Patched(kind)
    ensures r == Apply(img, LinkItems(links, kind, addrs))
  {
    var cur := img;
    for i := 0 to |links|
      invariant Apply(img, LinkItems(links, kind, addrs)) == Apply(cur, LinkItems(links[i..], kind, addrs))
    {
      assert links[i..][0] == links[i] && links[i..][1..] == links[i + 1..];
      if links[i].kind == kind {
        var it := LinkItem(links[i], addrs);
        Advance(cur, it, LinkItems(links[i + 1..], kind, addrs));
        if it.Err? {
          return Err(it.error);
        }
        var next := WriteBytes(cur, it.value);
        if next.Err? {
          return next;
        }
        cur := next.value;
      } else {
        assert [] + LinkItems(links[i + 1..], kind, addrs) == LinkItems(links[i + 1..], kind, addrs);
      }
    }
    return Ok(cur);
  }

  // ---------------------------------------------------------------------------
  // The last loop of `fixLeaPointers`: 2-byte LEAs to instructions
  // ---------------------------------------------------------------------------

  /** A 2-byte LEA recorded at `at` gets its target's signed distance. */
  function InlineItem(at: int, ref: int, addrs: map<int, int>): Item {
    var dst :- AddrOf(addrs, ref);
    var p :- CalculatePtr(dst, at, Rel, false);
    Ok(Write(at, NumToBytes(p.0, p.1, false)))
  }

  function InlineItems(refs: seq<(int, int)>, addrs: map<int, int>): seq<Item> {
    if |refs| == 0 then [] else [InlineItem(refs[0].0, refs[0].1, addrs)] + InlineItems(refs[1..], addrs)
  }

  predicate InlineResolved(img: seq<int>, at: int, ref: int, addrs: map<int, int>) {
    ref in addrs &&
    (-0x8000 <= addrs[ref] - at <= 0x7FFF ==> RefRelPointer(img, at, at, false) == Ok((addrs[ref], false)))
  }

  lemma InlineReadBack(img: seq<int>, at: int, ref: int, addrs: map<int, int>)
    requires InlineItem(at, ref, addrs).Ok? && Holds(img, InlineItem(at, ref, addrs).value)
    ensures InlineResolved(img, at, ref, addrs)
  {
    PatchSame(img, InlineItem(at, ref, addrs).value);
    if -0x8000 <= addrs[ref] - at <= 0x7FFF {
      RelRoundTrip(img, at, at, addrs[ref], false);
    }
  }

  lemma {:induction false} InlineHas(refs: seq<(int, int)>, addrs: map<int, int>, e: (int, int))
    requires e in refs
    ensures InlineItem(e.0, e.1, addrs) in InlineItems(refs, addrs)
    decreases |refs|
  {
    if refs[0] != e {
      InlineHas(refs[1..], addrs, e);
    }
  }

  method FixInline(img: seq<int>, refs: seq<(int, int)>, addrs: map<int, int>) returns (r: Result<seq<int>, Fault>)
    ensures r == Apply(img, InlineItems(refs, addrs))
  {
    var cur := img;
    for i := 0 to |refs|
      invariant Apply(img, InlineItems(refs, addrs)) == Apply(cur, InlineItems(refs[i..], addrs))
    {
      assert refs[i..][0] == refs[i] && refs[i..][1..] == refs[i + 1..];
      var (at, ref) := refs[i];
      var it := InlineItem(at, ref, addrs);
      Advance(cur, it, InlineItems(refs[i + 1..], addrs));
      if it.Err? {
        return Err(it.error);
      }
      var next := WriteBytes(cur, it.value);
      if next.Err? {
        return next;
      }
      cur := next.value;
    }
    return Ok(cur);
  }

  /** `fixLeaPointers`: the 4-byte LEAs, then the LEAs to tables, then the
      2-byte LEAs recorded during placement. */
  method FixLeaPointers(img: seq<int>, links: seq<Link>, inlineRef: seq<(int, int)>, addrs: map<int, int>)
    returns (r: Result<seq<int>, Fault>)
    ensures r == Apply(img, LinkItems(links, Lea4, addrs) + LinkItems(links, LinkKind.LeaTable, addrs) + InlineItems(inlineRef, addrs))
  {
    var a := LinkItems(links, Lea4, addrs);
    var b := LinkItems(links, LinkKind.LeaTable, addrs);
    ApplyAppend(img, a + b, InlineItems(inlineRef, addrs));
    ApplyAppend(img, a, b);
    r := FixLinks(img, links, Lea4, addrs);
    if r.Err? {
      return;
    }
    r := FixLinks(r.value, links, LinkKind.LeaTable, addrs);
    if r.Err? {
      return;
    }
    r := FixInline(r.value, inlineRef, addrs);
  }

  // ---------------------------------------------------------------------------
  // `fixStaticPointers`
  // ---------------------------------------------------------------------------

  /** One address of a pointer table entry gets the destination encoded with
      the entry's kind from the entry's base. */
  function SourceItem(p: PointerRow, kind: PtrKind, dst: int, src: int): Item {
    var e :- CalculatePtr(dst, StaticBase(p, src), kind, p.msb);
    Ok(Write(src, NumToBytes(e.0, e.1, false)))
  }

  function SourceItems(p: PointerRow, kind: PtrKind, dst: int, srcs: seq<int>): seq<Item> {
    if |srcs| == 0 then [] else [SourceItem(p, kind, dst, srcs[0])] + SourceItems(p, kind, dst, srcs[1..])
  }

  /** The writes of one entry: none for an entry without a target; the
      missing address or the malformed structure stops the pass before any
      write of the entry. */
  function RowItems(p: PointerRow, addrs: map<int, int>): seq<Item> {
    if p.reference == -1 then []
    else if p.reference !in addrs then [Err(NoAddress(p.reference))]
    else
      match StaticKind(p)
      case Err(e) => [Err(e)]
      case Ok(kind) => SourceItems(p, kind, addrs[p.reference], StaticSources(p))
  }

  /** The writes of the pointer rows, in row order. */
  function StaticItems(ps: seq<PointerRow>, addrs: map<int, int>): seq<Item> {
    if |ps| == 0 then [] else RowItems(ps[0], addrs) + StaticItems(ps[1..], addrs)
  }

  /** A destination encoded with `calculatePtr` reads back with the reader
      of its kind, from the base it was encoded from, whenever the distance
      fits the kind: any 32-bit address for `d` and `s`, a signed 16-bit
      distance for `r`, an unsigned 15-bit one (and the flag) for `n`, and an
      unsigned 16-bit one from the pointer itself for `f`. */
  predicate ReadsBack(img: seq<int>, kind: PtrKind, base: int, src: int, dst: int, msb: bool) {
    && ((kind == Direct || kind == NoPtr) && Is32(dst) ==> RefDirectPointer(img, src) == Ok(dst))
    && (kind == Rel && -0x8000 <= dst - base <= 0x7FFF ==> RefRelPointer(img, base, src, false) == Ok((dst, false)))
    && (kind == RelMsb && 0 <= dst - base <= 0x7FFF ==> RefRelPointer(img, base, src, true) == Ok((dst, msb)))
    && (kind == RelCur && base == src && 0 <= dst - src <= 0x8000 ==> RefRelCurPointer(img, src) == Ok(dst))
  }

  lemma EncodedReadBack(img: seq<int>, kind: PtrKind, base: int, src: int, dst: int, msb: bool)
    requires CalculatePtr(dst, base, kind, msb).Ok?
    requires var e := CalculatePtr(dst, base, kind, msb).value; Holds(img, Write(src, NumToBytes(e.0, e.1, false)))
    ensures ReadsBack(img, kind, base, src, dst, msb)
  {
    var e := CalculatePtr(dst, base, kind, msb).value;
    PatchSame(img, Write(src, NumToBytes(e.0, e.1, false)));
    if kind == Direct || kind == NoPtr {
      if Is32(dst) {
        DirectRoundTrip(img, src, dst);
      }
    } else if kind == Rel {
      if -0x8000 <= dst - base <= 0x7FFF {
        RelRoundTrip(img, src, base, dst, msb);
      }
    } else if kind == RelMsb {
      if 0 <= dst - base <= 0x7FFF {
        RelMsbRoundTrip(img, src, base, dst, msb);
      }
    } else if kind == RelCur {
      if base == src && 0 <= dst - src <= 0x8000 {
        RelCurRoundTrip(img, src, dst);
      }
    }
  }

  /** The entry stored at `src` reads back as the new address of its target. */
  predicate EntryResolved(img: seq<int>, p: PointerRow, src: int, addrs: map<int, int>) {
    p.reference in addrs && StaticKind(p).Ok? &&
    ReadsBack(img, StaticKind(p).value, StaticBase(p, src), src, addrs[p.reference], p.msb)
  }

  lemma {:induction false} SourceHas(p: PointerRow, kind: PtrKind, dst: int, srcs: seq<int>, src: int)
    requires src in srcs
    ensures SourceItem(p, kind, dst, src) in SourceItems(p, kind, dst, srcs)
    decreases |srcs|
  {
    if srcs[0] != src {
      SourceHas(p, kind, dst, srcs[1..], src);
    }
  }

  lemma {:induction false} StaticHas(ps: seq<PointerRow>, addrs: map<int, int>, p: PointerRow, src: int)
    requires p in ps && p.reference != -1 && p.reference in addrs && StaticKind(p).Ok? && src in StaticSources(p)
    ensures SourceItem(p, StaticKind(p).value, addrs[p.reference], src) in StaticItems(ps, addrs)
    decreases |ps|
  {
    if ps[0] == p {
      SourceHas(p, StaticKind(p).value, addrs[p.reference], StaticSources(p), src);
    } else {
      StaticHas(ps[1..], addrs, p, src);
    }
  }

  method FixStaticPointers(img: seq<int>, ps: seq<PointerRow>, addrs: map<int, int>) returns (r: Result<seq<int>, Fault>)
    ensures r == Apply(img, StaticItems(ps, addrs))
  {
    var cur := img;
    for i := 0 to |ps|
      invariant Apply(img, StaticItems(ps, addrs)) == Apply(cur, StaticItems(ps[i..], addrs))
    {
      var p := ps[i];
      var rest := StaticItems(ps[i + 1..], addrs);
      assert ps[i..][0] == p && ps[i..][1..] == ps[i + 1..];
      ApplyAppend(cur, RowItems(p, addrs), rest);
      if p.reference == -1 {
        continue;
      }
      if p.reference !in addrs {
        return Err(NoAddress(p.reference));
      }
      var kind := StaticKind(p);
      if kind.Err? {
        return Err(kind.error);
      }
      var dst := addrs[p.reference];
      var srcs := StaticSources(p);
      for j := 0 to |srcs|
        invariant Apply(img, StaticItems(ps, addrs)) == Then(Apply(cur, SourceItems(p, kind.value, dst, srcs[j..])), rest)
      {
        assert srcs[j..][0] == srcs[j] && srcs[j..][1..] == srcs[j + 1..];
        var it := SourceItem(p, kind.value, dst, srcs[j]);
        Advance(cur, it, SourceItems(p, kind.value, dst, srcs[j + 1..]));
        if it.Err? {
          return Err(it.error);
        }
        var next := WriteBytes(cur, it.value);
        if next.Err? {
          return next;
        }
        cur := next.value;
      }
    }
    return Ok(cur);
  }

  // ---------------------------------------------------------------------------
  // `buildMergeExtraBlocks` and `fixExtraBlocks`
  // ---------------------------------------------------------------------------

  /** A row of the link-table table: the call that points at it, its bytes
      and the script addresses it listed when exported. */
  datatype ExtraRow = ExtraRow(opCode: int, bytes: seq<int>, ptrs: seq<int>)

  /** Where a link table was copied and the instructions its links name. */
  datatype ExtraBlock = ExtraBlock(addr: int, scriptRefs: seq<int>)

  /** The ids of the instructions exported at `addr`. */
  function IdsAt(rows: seq<OpRow>, addr: int): (r: seq<int>)
    ensures forall id :: id in r ==> exists o :: o in rows && o.addr == addr && o.id == id
    ensures forall o :: o in rows && o.addr == addr ==> o.id in r
  {
    if |rows| == 0 then []
    else (if rows[0].addr == addr then [rows[0].id] else []) + IdsAt(rows[1..], addr)
  }

  /** The instruction each listed address names; an address that names no
      instruction, or several, is refused. */
  function ScriptRefs(rows: seq<OpRow>, ptrs: seq<int>): (r: Result<seq<int>, Fault>)
    ensures r.Ok? <==> forall k :: 0 <= k < |ptrs| ==> |IdsAt(rows, ptrs[k])| == 1
    ensures r.Ok? ==> |r.value| == |ptrs| && forall k :: 0 <= k < |ptrs| ==> IdsAt(rows, ptrs[k]) == [r.value[k]]
    decreases |ptrs|
  {
    if |ptrs| == 0 then Ok([])
    else
      var ids := IdsAt(rows, ptrs[0]);
      if |ids| != 1 then Err(UnmatchedExtraRef(ptrs[0]))
      else
        var rest :- ScriptRefs(rows, ptrs[1..]);
        Ok([ids[0]] + rest)
  }

  /** `buildMergeExtraBlocks` from the free list `blocks`: each table is
      copied to an even address anywhere in the ROM and recorded under its
      call (a later table of the same call replaces the earlier one in
      place; a table without links is copied but not recorded). */
  function BuildExtra(blocks: seq<Block>, img: seq<int>, rows: seq<OpRow>, extras: seq<ExtraRow>,
                      data: seq<(int, ExtraBlock)>): Result<(seq<Block>, seq<int>, seq<(int, ExtraBlock)>), Fault>
    decreases |extras|
  {
    if |extras| == 0 then Ok((blocks, img, data))
    else
      var e := extras[0];
      var p :- Allocate(blocks, |e.bytes|, true, RomMinAddr, RomMaxAddr);
      var next :- Step(img, Ok(Write(p.addr, e.bytes)));
      var refs :- ScriptRefs(rows, e.ptrs);
      var data' := if |e.ptrs| == 0 then data else Put(data, e.opCode, ExtraBlock(p.addr, refs));
      BuildExtra(p.blocks, next, rows, extras[1..], data')
  }

  /** Where a recorded link table lives and what it lists. */
  predicate Recorded(data: seq<(int, ExtraBlock)>) {
    forall e :: e in data ==> e.1.addr % 2 == 0 && RomMinAddr <= e.1.addr && |e.1.scriptRefs| > 0
  }

  lemma {:induction false} PutRecorded(data: seq<(int, ExtraBlock)>, k: int, v: ExtraBlock)
    requires Recorded(data) && v.addr % 2 == 0 && RomMinAddr <= v.addr && |v.scriptRefs| > 0
    ensures Recorded(Put(data, k, v))
    decreases |data|
  {
    if |data| > 0 && data[0].0 != k {
      PutRecorded(data[1..], k, v);
    }
  }

  /** Every recorded link table sits at an even address of the ROM and
      lists at least one instruction, so `fixExtraBlocks` always takes its
      `count > 0` step. */
  lemma {:induction false} ExtraRecorded(blocks: seq<Block>, img: seq<int>, rows: seq<OpRow>, extras: seq<ExtraRow>,
                                         data: seq<(int, ExtraBlock)>)
    requires Recorded(data) && BuildExtra(blocks, img, rows, extras, data).Ok?
    ensures Recorded(BuildExtra(blocks, img, rows, extras, data).value.2)
    decreases |extras|
  {
    if |extras| > 0 {
      var e := extras[0];
      var p := Allocate(blocks, |e.bytes|, true, RomMinAddr, RomMaxAddr).value;
      AllocatedInWindow(blocks, |e.bytes|, true, RomMinAddr, RomMaxAddr);
      var next := Step(img, Ok(Write(p.addr, e.bytes))).value;
      var refs := ScriptRefs(rows, e.ptrs).value;
      var data' := if |e.ptrs| == 0 then data else Put(data, e.opCode, ExtraBlock(p.addr, refs));
      if |e.ptrs| > 0 {
        PutRecorded(data, e.opCode, ExtraBlock(p.addr, refs));
      }
      ExtraRecorded(p.blocks, next, rows, extras[1..], data');
    }
  }

  /** `buildMergeExtraBlocks`: allocates and copies each link table, then
      records it under its call with the instructions its links name. */
  method BuildMergeExtraBlocks(free: FreeSpace, img: seq<int>, rows: seq<OpRow>, extras: seq<ExtraRow>)
    returns (r: Result<(seq<int>, seq<(int, ExtraBlock)>), Fault>)
    modifies free
    ensures var b := BuildExtra(old(free.blocks), img, rows, extras, []);
      && (b.Ok? ==> r == Ok((b.value.1, b.value.2)) && free.blocks == b.value.0)
      && (b.Err? ==> r == Err(b.error))
  {
    var cur := img;
    var data: seq<(int, ExtraBlock)> := [];
    for i := 0 to |extras|
      invariant BuildExtra(old(free.blocks), img, rows, extras, []) == BuildExtra(free.blocks, cur, rows, extras[i..], data)
    {
      var e := extras[i];
      assert extras[i..][0] == e && extras[i..][1..] == extras[i + 1..];
      var pasteOff := free.Malloc(|e.bytes|, true, RomMinAddr, RomMaxAddr);
      if pasteOff.Err? {
        return Err(pasteOff.error);
      }
      var next := WriteBytes(cur, Write(pasteOff.value, e.bytes));
      if next.Err? {
        return Err(next.error);
      }
      var refs := ScriptRefs(rows, e.ptrs);
      if refs.Err? {
        return Err(refs.error);
      }
      if |e.ptrs| > 0 {
        data := Put(data, e.opCode, ExtraBlock(pasteOff.value, refs.value));
      }
      cur := next.value;
    }
    return Ok((cur, data));
  }

  /** The `k`-th link of a copied table is written at offset 4 + 8k. */
  function RefItem(at: int, s: int, addrs: map<int, int>): Item {
    var dst :- AddrOf(addrs, s);
    Ok(Write(at, NumToBytes(dst, 4, false)))
  }

  function RefItems(at: int, refs: seq<int>, addrs: map<int, int>): (r: seq<Item>)
    ensures |r| == |refs|
    decreases |refs|
  {
    if |refs| == 0 then [] else [RefItem(at, refs[0], addrs)] + RefItems(at + 8, refs[1..], addrs)
  }

  /** The writes for one recorded table: the call gets the table's new
      address in its variables, and each link the new address of its
      instruction. */
  function BlockItems(op: int, ex: ExtraBlock, addrs: map<int, int>): seq<Item> {
    if op !in addrs then [Err(NoAddress(op))]
    else [Ok(Write(ExtraSite(addrs[op]), NumToBytes(ex.addr, 4, false)))] + RefItems(ex.addr + 4, ex.scriptRefs, addrs)
  }

  function ExtraItems(data: seq<(int, ExtraBlock)>, addrs: map<int, int>): seq<Item> {
    if |data| == 0 then [] else BlockItems(data[0].0, data[0].1, addrs) + ExtraItems(data[1..], addrs)
  }

  /** The call reads the table's address back from its variables, and the
      `k`-th link, at the offset the exporter reads it from, the new address
      of the `k`-th instruction. */
  predicate ExtraResolved(img: seq<int>, op: int, ex: ExtraBlock, addrs: map<int, int>) {
    op in addrs
    && (Is32(ex.addr) ==> RefDirectPointer(img, ExtraSite(addrs[op])) == Ok(ex.addr))
    && LinksResolved(img, ex, addrs)
  }

  predicate LinksResolved(img: seq<int>, ex: ExtraBlock, addrs: map<int, int>) {
    forall k :: 0 <= k < |ex.scriptRefs| ==>
      ex.scriptRefs[k] in addrs &&
      (Is32(addrs[ex.scriptRefs[k]]) ==> RefDirectPointer(img, ex.addr + 4 + 8 * k) == Ok(addrs[ex.scriptRefs[k]]))
  }

  lemma RefReadBack(img: seq<int>, at: int, s: int, addrs: map<int, int>)
    requires RefItem(at, s, addrs).Ok? && Holds(img, RefItem(at, s, addrs).value)
    ensures s in addrs && (Is32(addrs[s]) ==> RefDirectPointer(img, at) == Ok(addrs[s]))
  {
    PatchSame(img, RefItem(at, s, addrs).value);
    if Is32(addrs[s]) {
      DirectRoundTrip(img, at, addrs[s]);
    }
  }

  lemma {:induction false} RefHas(at: int, refs: seq<int>, addrs: map<int, int>, k: int)
    requires 0 <= k < |refs|
    ensures RefItems(at, refs, addrs)[k] == RefItem(at + 8 * k, refs[k], addrs)
    decreases |refs|
  {
    var rest := RefItems(at + 8, refs[1..], addrs);
    assert RefItems(at, refs, addrs) == [RefItem(at, refs[0], addrs)] + rest;
    if k > 0 {
      RefHas(at + 8, refs[1..], addrs, k - 1);
      assert at + 8 + 8 * (k - 1) == at + 8 * k && refs[1..][k - 1] == refs[k];
    }
  }

  lemma {:induction false} ExtraHas(data: seq<(int, ExtraBlock)>, addrs: map<int, int>, e: (int, ExtraBlock))
    requires e in data
    ensures forall x :: x in BlockItems(e.0, e.1, addrs) ==> x in ExtraItems(data, addrs)
    decreases |data|
  {
    if data[0] != e {
      ExtraHas(data[1..], addrs, e);
    }
  }

  /** The inner loop of `fixExtraBlocks`: the running `srcOffset` steps over
      two bytes, writes four, and steps over two more, so the `k`-th write
      lands at offset 4 + 8k of the table. */
  method FixLinkTable(img: seq<int>, ex: ExtraBlock, addrs: map<int, int>) returns (r: Result<seq<int>, Fault>)
    ensures r == Apply(img, RefItems(ex.addr + 4, ex.scriptRefs, addrs))
  {
    var refs := ex.scriptRefs;
    var cur := img;
    var srcOffset := ex.addr + 2;
    for j := 0 to |refs|
      invariant srcOffset == ex.addr + 2 + 8 * j
      invariant Apply(img, RefItems(ex.addr + 4, refs, addrs)) == Apply(cur, RefItems(srcOffset + 2, refs[j..], addrs))
    {
      assert refs[j..][0] == refs[j] && refs[j..][1..] == refs[j + 1..];
      srcOffset := srcOffset + 2;
      Advance(cur, RefItem(srcOffset, refs[j], addrs), RefItems(srcOffset + 8, refs[j + 1..], addrs));
      if refs[j] !in addrs {
        return Err(NoAddress(refs[j]));
      }
      var next := WriteBytes(cur, Write(srcOffset, NumToBytes(addrs[refs[j]], 4, false)));
      if next.Err? {
        return next;
      }
      cur := next.value;
      srcOffset := srcOffset + 4;
      if |refs| > 0 {
        srcOffset := srcOffset + 2;
      }
    }
    return Ok(cur);
  }

  /** One recorded table: the call gets the table's address in its
      variables, then the table's links are rewritten. */
  method FixBlock(img: seq<int>, op: int, ex: ExtraBlock, addrs: map<int, int>) returns (r: Result<seq<int>, Fault>)
    ensures r == Apply(img, BlockItems(op, ex, addrs))
  {
    BlockStep(img, op, ex, addrs);
    if op !in addrs {
      return Err(NoAddress(op));
    }
    var src := addrs[op];
    var evenByte := if src % 2 != 0 then 0 else 1;
    r := WriteBytes(img, Write(src + evenByte + 7, NumToBytes(ex.addr, 4, false)));
    if r.Err? {
      return;
    }
    r := FixLinkTable(r.value, ex, addrs);
  }

  /** `fixExtraBlocks`: every recorded table, in the order of the hash. */
  method FixExtraBlocks(img: seq<int>, data: seq<(int, ExtraBlock)>, addrs: map<int, int>) returns (r: Result<seq<int>, Fault>)
    ensures r == Apply(img, ExtraItems(data, addrs))
  {
    var cur := img;
    for i := 0 to |data|
      invariant Apply(img, ExtraItems(data, addrs)) == Apply(cur, ExtraItems(data[i..], addrs))
    {
      var (op, ex) := data[i];
      assert data[i..][0] == data[i] && data[i..][1..] == data[i + 1..];
      ApplyAppend(cur, BlockItems(op, ex, addrs), ExtraItems(data[i + 1..], addrs));
      var next := FixBlock(cur, op, ex, addrs);
      if next.Err? {
        return next;
      }
      cur := next.value;
    }
    return Ok(cur);
  }

  lemma BlockStep(cur: seq<int>, op: int, ex: ExtraBlock, addrs: map<int, int>)
    ensures Apply(cur, BlockItems(op, ex, addrs)) ==
      if op !in addrs then Err(NoAddress(op))
      else
        var src := addrs[op];
        var evenByte := if src % 2 != 0 then 0 else 1;
        Then(Step(cur, Ok(Write(src + evenByte + 7, NumToBytes(ex.addr, 4, false)))),
             RefItems(ex.addr + 4, ex.scriptRefs, addrs))
  {
    if op in addrs {
      Advance(cur, Ok(Write(ExtraSite(addrs[op]), NumToBytes(ex.addr, 4, false))), RefItems(ex.addr + 4, ex.scriptRefs, addrs));
    } else {
      Advance(cur, Err(NoAddress(op)), []);
    }
  }

  // ---------------------------------------------------------------------------
  // The passes together
  // ---------------------------------------------------------------------------

  /** Every write of the four passes, in the order `patchROM` runs them. */
  function Fixes(ps: seq<PointerRow>, links: seq<Link>, inlineRef: seq<(int, int)>,
                 data: seq<(int, ExtraBlock)>, addrs: map<int, int>): seq<Item> {
    StaticItems(ps, addrs) + LinkItems(links, Sub, addrs)
    + (LinkItems(links, Lea4, addrs) + LinkItems(links, LinkKind.LeaTable, addrs) + InlineItems(inlineRef, addrs))
    + ExtraItems(data, addrs)
  }

  /** The four passes one after another compute the writes of `Fixes`. */
  method FixPointers(img: seq<int>, ps: seq<PointerRow>, links: seq<Link>, inlineRef: seq<(int, int)>,
                     data: seq<(int, ExtraBlock)>, addrs: map<int, int>) returns (r: Result<seq<int>, Fault>)
    ensures r == Apply(img, Fixes(ps, links, inlineRef, data, addrs))
  {
    var a := StaticItems(ps, addrs);
    var b := LinkItems(links, Sub, addrs);
    var c := LinkItems(links, Lea4, addrs) + LinkItems(links, LinkKind.LeaTable, addrs) + InlineItems(inlineRef, addrs);
    var d := ExtraItems(data, addrs);
    ApplyAppend(img, a + b + c, d);
    ApplyAppend(img, a + b, c);
    ApplyAppend(img, a, b);
    r := FixStaticPointers(img, ps, addrs);
    if r.Err? {
      return;
    }
    r := FixLinks(r.value, links, Sub, addrs);
    if r.Err? {
      return;
    }
    r := FixLeaPointers(r.value, links, inlineRef, addrs);
    if r.Err? {
      return;
    }
    r := FixExtraBlocks(r.value, data, addrs);
  }

  /** When the writes of the passes do not disturb each other, every
      pointer the passes rewrite reads back as the new address of what it
      points to: jump and gosub targets, inline LEAs, pointer table entries
      and the links of copied link tables. */
  lemma PointersResolve(img: seq<int>, ps: seq<PointerRow>, links: seq<Link>, inlineRef: seq<(int, int)>,
                        data: seq<(int, ExtraBlock)>, addrs: map<int, int>)
    requires Apply(img, Fixes(ps, links, inlineRef, data, addrs)).Ok?
    requires Separate(Fixes(ps, links, inlineRef, data, addrs))
    ensures var fin := Apply(img, Fixes(ps, links, inlineRef, data, addrs)).value;
      && (forall l :: l in links && Patched(l.kind) ==> LinkResolved(fin, l, addrs))
      && (forall e :: e in inlineRef ==> InlineResolved(fin, e.0, e.1, addrs))
      && (forall p, src :: p in ps && p.reference != -1 && src in StaticSources(p) ==> EntryResolved(fin, p, src, addrs))
      && (forall e :: e in data ==> ExtraResolved(fin, e.0, e.1, addrs))
  {
    var items := Fixes(ps, links, inlineRef, data, addrs);
    var fin := Apply(img, items).value;
    ApplyAllOk(img, items);
    forall l | l in links && Patched(l.kind)
      ensures LinkResolved(fin, l, addrs)
    {
      LinkHas(links, l.kind, addrs, l);
      Lands(img, items, LinkItem(l, addrs));
      LinkReadBack(fin, l, addrs);
    }
    forall e | e in inlineRef
      ensures InlineResolved(fin, e.0, e.1, addrs)
    {
      InlineHas(inlineRef, addrs, e);
      Lands(img, items, InlineItem(e.0, e.1, addrs));
      InlineReadBack(fin, e.0, e.1, addrs);
    }
    forall p, src | p in ps && p.reference != -1 && src in StaticSources(p)
      ensures EntryResolved(fin, p, src, addrs)
    {
      StaticEntry(ps, addrs, p, items);
      StaticHas(ps, addrs, p, src);
      var kind := StaticKind(p).value;
      var it := SourceItem(p, kind, addrs[p.reference], src);
      Lands(img, items, it);
      EncodedReadBack(fin, kind, StaticBase(p, src), src, addrs[p.reference], p.msb);
    }
    forall e | e in data
      ensures ExtraResolved(fin, e.0, e.1, addrs)
    {
      ExtraHas(data, addrs, e);
      ExtraBlockResolved(img, items, e.0, e.1, addrs);
    }
  }

  /** An entry whose writes all succeed has its target's address and a
      well-formed structure. */
  lemma {:induction false} StaticEntry(ps: seq<PointerRow>, addrs: map<int, int>, p: PointerRow, items: seq<Item>)
    requires p in ps && p.reference != -1
    requires forall x :: x in StaticItems(ps, addrs) ==> x in items
    requires forall k :: 0 <= k < |items| ==> items[k].Ok?
    ensures p.reference in addrs && StaticKind(p).Ok?
    decreases |ps|
  {
    assert StaticItems(ps, addrs) == RowItems(ps[0], addrs) + StaticItems(ps[1..], addrs);
    if ps[0] == p {
      var row := RowItems(p, addrs);
      assert forall x :: x in row ==> x in items;
      RowFault(p, addrs);
      if |row| == 1 {
        assert row[0] in items;
      }
    } else {
      assert forall x :: x in StaticItems(ps[1..], addrs) ==> x in StaticItems(ps, addrs);
      StaticEntry(ps[1..], addrs, p, items);
    }
  }

  /** An entry with a target but no address for it, or with a malformed
      structure, stops the pass before any of its writes. */
  lemma RowFault(p: PointerRow, addrs: map<int, int>)
    ensures p.reference != -1 && !(p.reference in addrs && StaticKind(p).Ok?) ==>
              |RowItems(p, addrs)| == 1 && RowItems(p, addrs)[0].Err?
  {
  }

  lemma ExtraBlockResolved(img: seq<int>, items: seq<Item>, op: int, ex: ExtraBlock, addrs: map<int, int>)
    requires Apply(img, items).Ok? && Separate(items)
    requires forall x :: x in BlockItems(op, ex, addrs) ==> x in items
    ensures ExtraResolved(Apply(img, items).value, op, ex, addrs)
  {
    var block := BlockItems(op, ex, addrs);
    assert block[0] in items;
    Lands(img, items, block[0]);
    BlockParts(op, ex, addrs);
    HeadReadBack(img, items, block[0].value, ex.addr);
    forall k | 0 <= k < |ex.scriptRefs|
      ensures ex.scriptRefs[k] in addrs &&
              (Is32(addrs[ex.scriptRefs[k]]) ==> RefDirectPointer(Apply(img, items).value, ex.addr + 4 + 8 * k) == Ok(addrs[ex.scriptRefs[k]]))
    {
      LinkEntryReadBack(img, items, op, ex, addrs, k);
    }
  }

  lemma BlockParts(op: int, ex: ExtraBlock, addrs: map<int, int>)
    requires op in addrs
    ensures BlockItems(op, ex, addrs) ==
      [Ok(Write(ExtraSite(addrs[op]), NumToBytes(ex.addr, 4, false)))] + RefItems(ex.addr + 4, ex.scriptRefs, addrs)
  {
  }

  lemma HeadReadBack(img: seq<int>, items: seq<Item>, head: Write, addr: int)
    requires Apply(img, items).Ok? && Separate(items) && Ok(head) in items
    requires head.bytes == NumToBytes(addr, 4, false)
    ensures Is32(addr) ==> RefDirectPointer(Apply(img, items).value, head.addr) == Ok(addr)
  {
    var fin := Apply(img, items).value;
    Lands(img, items, Ok(head));
    PatchSame(fin, head);
    if Is32(addr) {
      DirectRoundTrip(fin, head.addr, addr);
    }
  }

  /** The `k`-th link write of a recorded table is one of the pass's items. */
  lemma RefInItems(op: int, ex: ExtraBlock, addrs: map<int, int>, k: int, items: seq<Item>)
    requires op in addrs && 0 <= k < |ex.scriptRefs|
    requires forall x :: x in BlockItems(op, ex, addrs) ==> x in items
    ensures RefItem(ex.addr + 4 + 8 * k, ex.scriptRefs[k], addrs) in items
  {
    var it := RefItem(ex.addr + 4 + 8 * k, ex.scriptRefs[k], addrs);
    var rs := RefItems(ex.addr + 4, ex.scriptRefs, addrs);
    var block := BlockItems(op, ex, addrs);
    BlockParts(op, ex, addrs);
    RefHas(ex.addr + 4, ex.scriptRefs, addrs, k);
    assert block[k + 1] == it;
    assert block[k + 1] in items;
  }

  /** A link write that survives reads back the instruction's new address. */
  lemma RefLands(img: seq<int>, items: seq<Item>, at: int, s: int, addrs: map<int, int>)
    requires Apply(img, items).Ok? && Separate(items) && RefItem(at, s, addrs) in items
    ensures s in addrs && (Is32(addrs[s]) ==> RefDirectPointer(Apply(img, items).value, at) == Ok(addrs[s]))
  {
    Lands(img, items, RefItem(at, s, addrs));
    RefReadBack(Apply(img, items).value, at, s, addrs);
  }

  lemma LinkEntryReadBack(img: seq<int>, items: seq<Item>, op: int, ex: ExtraBlock, addrs: map<int, int>, k: int)
    requires Apply(img, items).Ok? && Separate(items) && op in addrs && 0 <= k < |ex.scriptRefs|
    requires forall x :: x in BlockItems(op, ex, addrs) ==> x in items
    ensures ex.scriptRefs[k] in addrs &&
            (Is32(addrs[ex.scriptRefs[k]]) ==> RefDirectPointer(Apply(img, items).value, ex.addr + 4 + 8 * k) == Ok(addrs[ex.scriptRefs[k]]))
  {
    RefInItems(op, ex, addrs, k, items);
    RefLands(img, items, ex.addr + 4 + 8 * k, ex.scriptRefs[k], addrs);
  }
}
