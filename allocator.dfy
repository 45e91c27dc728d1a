/** `scriptMalloc` of Ruby/main.rb: the allocator that finds room for a
    rebuilt script group in the free regions of the ROM. The free list holds
    blocks of inclusive byte ranges `[start, end]` with a priority; a request
    asks for `required` bytes, optionally at an even address, such that the
    first byte is at or after `minAddr` and `addr + required <= maxAddr`.

    The allocator sorts the list by priority, then walks it: the first block
    that can take the request at its left edge, or failing that at its right
    edge, inside the window wins and shrinks (and leaves the list when it
    becomes empty). When no block offers an edge, the first block that spans
    the whole window is divided at `minAddr`; when there is none either, the
    request fails. */
module Allocator {
  import opened Wrappers

  /** One free region `[start, end]` (inclusive) and its priority: lower
      priorities are tried first. */
  datatype Block = Block(start: int, end: int, priority: int)

  /** The priority of the upper half of a divided block. */
  const DividedPriority: int := 99

  // ---------------------------------------------------------------------------
  // Sorting by priority
  // ---------------------------------------------------------------------------

  predicate SortedByPriority(bs: seq<Block>) {
    forall i, j :: 0 <= i < j < |bs| ==> bs[i].priority <= bs[j].priority
  }

  /** Places `b` before the first block whose priority is not lower, so that
      blocks of equal priority keep their order. */
  function Insert(b: Block, bs: seq<Block>): seq<Block> {
    if |bs| == 0 then [b]
    else if b.priority <= bs[0].priority then [b] + bs
    else [bs[0]] + Insert(b, bs[1..])
  }

  /** The free list sorted by priority (a stable insertion sort). */
  function SortByPriority(bs: seq<Block>): seq<Block> {
    if |bs| == 0 then [] else Insert(bs[0], SortByPriority(bs[1..]))
  }

  /** Every block of `bs` has priority `p` or more. */
  predicate AllAtLeast(bs: seq<Block>, p: int) {
    forall k :: 0 <= k < |bs| ==> p <= bs[k].priority
  }

  lemma {:induction false} InsertBound(b: Block, bs: seq<Block>, p: int)
    requires AllAtLeast(bs, p) && p <= b.priority
    ensures AllAtLeast(Insert(b, bs), p)
    decreases |bs|
  {
    if |bs| > 0 && b.priority > bs[0].priority {
      InsertBound(b, bs[1..], p);
    }
  }

  /** A block placed in front of sorted blocks of no lower priority keeps
      them sorted. */
  lemma ConsSorted(x: Block, bs: seq<Block>)
    requires SortedByPriority(bs) && AllAtLeast(bs, x.priority)
    ensures SortedByPriority([x] + bs)
  {
    var r := [x] + bs;
    forall i, j | 0 <= i < j < |r| ensures r[i].priority <= r[j].priority {
      if i > 0 {
        assert r[i] == bs[i - 1] && r[j] == bs[j - 1];
      } else {
        assert r[j] == bs[j - 1];
      }
    }
  }

  lemma {:induction false} InsertSorted(b: Block, bs: seq<Block>)
    requires SortedByPriority(bs)
    ensures SortedByPriority(Insert(b, bs))
    decreases |bs|
  {
    if |bs| == 0 {
    } else if b.priority <= bs[0].priority {
      assert AllAtLeast(bs, b.priority) by {
        forall k | 0 <= k < |bs| ensures b.priority <= bs[k].priority {
          if k > 0 {
            assert bs[0].priority <= bs[k].priority;
          }
        }
      }
      ConsSorted(b, bs);
    } else {
      var rest := bs[1..];
      InsertSorted(b, rest);
      assert AllAtLeast(rest, bs[0].priority) by {
        forall k | 0 <= k < |rest| ensures bs[0].priority <= rest[k].priority {
          assert rest[k] == bs[k + 1];
        }
      }
      InsertBound(b, rest, bs[0].priority);
      ConsSorted(bs[0], Insert(b, rest));
    }
  }

  lemma {:induction false} InsertPermutes(b: Block, bs: seq<Block>)
    ensures multiset(Insert(b, bs)) == multiset(bs) + multiset{b}
    ensures |Insert(b, bs)| == |bs| + 1
    decreases |bs|
  {
    if |bs| > 0 && b.priority > bs[0].priority {
      InsertPermutes(b, bs[1..]);
      assert bs == [bs[0]] + bs[1..];
    }
  }

  /** Sorting yields a priority-ordered list ... */
  lemma {:induction false} SortByPrioritySorted(bs: seq<Block>)
    ensures SortedByPriority(SortByPriority(bs))
    decreases |bs|
  {
    if |bs| > 0 {
      SortByPrioritySorted(bs[1..]);
      InsertSorted(bs[0], SortByPriority(bs[1..]));
    }
  }

  /** ... that holds the same blocks as the free list. */
  lemma {:induction false} SortByPriorityPermutes(bs: seq<Block>)
    ensures multiset(SortByPriority(bs)) == multiset(bs)
    decreases |bs|
  {
    if |bs| > 0 {
      var rest := SortByPriority(bs[1..]);
      SortByPriorityPermutes(bs[1..]);
      InsertPermutes(bs[0], rest);
      assert multiset(SortByPriority(bs)) == multiset(rest) + multiset{bs[0]};
      assert bs == [bs[0]] + bs[1..];
      assert multiset(bs) == multiset{bs[0]} + multiset(bs[1..]);
    }
  }

  // ---------------------------------------------------------------------------
  // Probing one block
  // ---------------------------------------------------------------------------

  /** The pad byte that moves `addr` to an even address when one is asked
      for (Ruby's `modulo` agrees with Dafny's `%` for the divisor 2). */
  function Pad(even: bool, addr: int): (pad: int)
    ensures pad == 0 || pad == 1
    ensures even ==> (addr + pad) % 2 == 0 && (addr - pad) % 2 == 0
    ensures !even ==> pad == 0
  {
    if even && addr % 2 != 0 then 1 else 0
  }

  /** The window test applied to a candidate address. */
  predicate InWindow(addr: int, required: int, minAddr: int, maxAddr: int) {
    addr >= minAddr && addr + required <= maxAddr
  }

  /** What one block offers: the request at its left edge (the pad byte in
      front), at its right edge (the pad byte behind), or at neither edge;
      in the last case `spans` says whether the block is a candidate for
      division. */
  datatype Probe = LeftEdge(addr: int, pad: int) | RightEdge(addr: int, pad: int) | NoEdge(spans: bool)

  /** The left-edge and then the right-edge attempt on one block that is
      large enough, or neither. */
  function ProbeBlock(b: Block, required: int, even: bool, minAddr: int, maxAddr: int): Probe {
    var avail := b.end - b.start + 1;
    if required > avail then NoEdge(false)
    else
      var lpad := Pad(even, b.start);
      if (required < avail || lpad == 0) && InWindow(b.start + lpad, required, minAddr, maxAddr) then
        LeftEdge(b.start + lpad, lpad)
      else
        var rpad := Pad(even, b.end - required + 1);
        if !(required < avail || rpad == 0) then NoEdge(false)
        else if InWindow(b.end - required + 1 - rpad, required, minAddr, maxAddr) then
          RightEdge(b.end - required + 1 - rpad, rpad)
        else NoEdge(b.start <= minAddr && b.end >= maxAddr)
  }

  /** A placement at the left edge lies in the window, inside the block, at
      an even address when asked, right after the block's start and pad. */
  lemma LeftEdgeFits(b: Block, required: int, even: bool, minAddr: int, maxAddr: int)
    requires ProbeBlock(b, required, even, minAddr, maxAddr).LeftEdge?
    ensures var p := ProbeBlock(b, required, even, minAddr, maxAddr);
      && InWindow(p.addr, required, minAddr, maxAddr)
      && (even ==> p.addr % 2 == 0)
      && p.addr == b.start + p.pad
      && b.start <= p.addr && p.addr + required <= b.end + 1
  {
  }

  /** A placement at the right edge lies in the window, inside the block, at
      an even address when asked, and ends at the block's end less the pad. */
  lemma RightEdgeFits(b: Block, required: int, even: bool, minAddr: int, maxAddr: int)
    requires ProbeBlock(b, required, even, minAddr, maxAddr).RightEdge?
    ensures var p := ProbeBlock(b, required, even, minAddr, maxAddr);
      && InWindow(p.addr, required, minAddr, maxAddr)
      && (even ==> p.addr % 2 == 0)
      && p.addr + required == b.end + 1 - p.pad
      && b.start <= p.addr
  {
  }

  /** A block that spans the window is one that offered no edge even though
      it holds the request: it reaches from `minAddr` or before to `maxAddr`
      or after. */
  lemma SpanningBlock(b: Block, required: int, even: bool, minAddr: int, maxAddr: int)
    requires ProbeBlock(b, required, even, minAddr, maxAddr) == NoEdge(true)
    ensures b.start <= minAddr && maxAddr <= b.end
    ensures required <= b.end - b.start + 1
    ensures !InWindow(b.start + Pad(even, b.start), required, minAddr, maxAddr) || (required == b.end - b.start + 1 && Pad(even, b.start) == 1)
  {
  }

  // ---------------------------------------------------------------------------
  // The allocation as a function of the free list
  // ---------------------------------------------------------------------------

  /** Which block served the request and how. */
  datatype How = FromLeft(index: nat) | FromRight(index: nat) | Divided(index: nat)

  /** A successful allocation: its address, the free list afterwards and the
      block it came from (an index into the sorted list). */
  datatype Placement = Placement(addr: int, blocks: seq<Block>, how: How)

  /** Block `i` replaced by `b`, or dropped when `b` is empty. */
  function Shrunk(bs: seq<Block>, i: nat, b: Block): seq<Block>
    requires i < |bs|
  {
    if b.start > b.end then bs[..i] + bs[i + 1..] else bs[i := b]
  }

  /** Division of block `k` at `minAddr`: the block keeps what lies below the
      allocation and a new block of priority 99 takes what lies above it. */
  function Divide(bs: seq<Block>, k: nat, required: int, even: bool, minAddr: int): Placement
    requires k < |bs|
  {
    var addr := minAddr + Pad(even, minAddr);
    var b := bs[k];
    Placement(addr, bs[k := Block(b.start, addr - 1, b.priority)] + [Block(addr + required, b.end, DividedPriority)], Divided(k))
  }

  predicate Before(toDivide: seq<nat>, i: int) {
    forall k :: 0 <= k < |toDivide| ==> toDivide[k] < i
  }

  /** The walk from block `i` on, with `toDivide` the division candidates met
      so far. */
  function Scan(bs: seq<Block>, i: nat, toDivide: seq<nat>, required: int, even: bool, minAddr: int, maxAddr: int): Result<Placement, Fault>
    requires i < |bs| && Before(toDivide, i)
    decreases |bs| - i
  {
    var b := bs[i];
    if b.start > b.end then Err(MemoryCorruption)
    else match ProbeBlock(b, required, even, minAddr, maxAddr)
      case LeftEdge(addr, pad) =>
        Ok(Placement(addr, Shrunk(bs, i, Block(b.start + required + pad, b.end, b.priority)), FromLeft(i)))
      case RightEdge(addr, pad) =>
        Ok(Placement(addr, Shrunk(bs, i, Block(b.start, addr - pad - 1, b.priority)), FromRight(i)))
      case NoEdge(spans) =>
        var candidates := if spans then toDivide + [i] else toDivide;
        if i + 1 < |bs| then Scan(bs, i + 1, candidates, required, even, minAddr, maxAddr)
        else if |candidates| > 0 then Ok(Divide(bs, candidates[0], required, even, minAddr))
        else Err(NoFreeSpace(required, minAddr, maxAddr))
  }

  /** `scriptMalloc` as a function of the free list: the list is sorted by
      priority and then walked from its first block. */
  function Allocate(blocks: seq<Block>, required: int, even: bool, minAddr: int, maxAddr: int): Result<Placement, Fault> {
    var bs := SortByPriority(blocks);
    if |bs| == 0 then Err(EmptyFreeList) else Scan(bs, 0, [], required, even, minAddr, maxAddr)
  }

  // ---------------------------------------------------------------------------
  // The free list as an object
  // ---------------------------------------------------------------------------

  /** The allocator's state: the free list, which every call sorts in place
      and then updates. */
  class FreeSpace {
    var blocks: seq<Block>

    constructor(initial: seq<Block>)
      ensures blocks == initial
    {
      blocks := initial;
    }

    /** One block's edges, tested in the order the Ruby code tests them. */
    static method ProbeAt(b: Block, required: int, even: bool, minAddr: int, maxAddr: int) returns (p: Probe)
      ensures p == ProbeBlock(b, required, even, minAddr, maxAddr)
    {
      var avail := b.end - b.start + 1;
      if required <= avail {
        var pasteOff := b.start;
        var evenByte := Pad(even, pasteOff);
        if required < avail || evenByte == 0 {
          pasteOff := pasteOff + evenByte;
          if pasteOff >= minAddr && pasteOff + required <= maxAddr {
            return LeftEdge(pasteOff, evenByte);
          }
        }
        pasteOff := b.end - required + 1;
        evenByte := Pad(even, pasteOff);
        if required < avail || evenByte == 0 {
          pasteOff := pasteOff - evenByte;
          if pasteOff >= minAddr && pasteOff + required <= maxAddr {
            return RightEdge(pasteOff, evenByte);
          }
          return NoEdge(b.start <= minAddr && b.end >= maxAddr);
        }
      }
      return NoEdge(false);
    }

    /** The walk over the sorted free list, block by block: the first block
        that offers an edge is shrunk, and when none does the first block
        that spans the window is divided. */
    static method Walk(bs: seq<Block>, required: int, even: bool, minAddr: int, maxAddr: int) returns (r: Result<Placement, Fault>)
      requires |bs| > 0
      ensures r == Scan(bs, 0, [], required, even, minAddr, maxAddr)
    {
      var idx: nat := 0;
      var toDivide: seq<nat> := [];
      while true
        invariant idx < |bs| && Before(toDivide, idx)
        invariant Scan(bs, 0, [], required, even, minAddr, maxAddr) == Scan(bs, idx, toDivide, required, even, minAddr, maxAddr)
        decreases |bs| - idx
      {
        var block := bs[idx];
        if block.start > block.end {
          return Err(MemoryCorruption);
        }
        var probe := ProbeAt(block, required, even, minAddr, maxAddr);
        match probe {
          case LeftEdge(addr, pad) =>
            return Ok(Placement(addr, Shrunk(bs, idx, Block(block.start + required + pad, block.end, block.priority)), FromLeft(idx)));
          case RightEdge(addr, pad) =>
            return Ok(Placement(addr, Shrunk(bs, idx, Block(block.start, addr - pad - 1, block.priority)), FromRight(idx)));
          case NoEdge(spans) =>
            if idx + 1 < |bs| {
              ScanPast(bs, idx, toDivide, required, even, minAddr, maxAddr);
            }
            if spans {
              toDivide := toDivide + [idx];
            }
        }
        if idx + 1 >= |bs| {
          if |toDivide| > 0 {
            return Ok(Divide(bs, toDivide[0], required, even, minAddr));
          }
          return Err(NoFreeSpace(required, minAddr, maxAddr));
        }
        idx := idx + 1;
      }
    }

    /** Allocates `required` bytes and returns their address. The free list
        is sorted in place and then ends up as `Allocate` describes; on a
        failure it is left sorted. */
    method Malloc(required: int, even: bool, minAddr: int, maxAddr: int) returns (r: Result<int, Fault>)
      modifies this
      ensures var a := Allocate(old(blocks), required, even, minAddr, maxAddr);
        && (a.Ok? ==> r == Ok(a.value.addr) && blocks == a.value.blocks)
        && (a.Err? ==> r == Err(a.error) && blocks == SortByPriority(old(blocks)))
    {
      blocks := SortByPriority(blocks);
      if |blocks| == 0 {
        return Err(EmptyFreeList);
      }
      var w := Walk(blocks, required, even, minAddr, maxAddr);
      match w {
        case Ok(p) =>
          blocks := p.blocks;
          return Ok(p.addr);
        case Err(e) =>
          return Err(e);
      }
    }
  }

  // ---------------------------------------------------------------------------
  // What an allocation does
  // ---------------------------------------------------------------------------

  /** Every block from `i` up to `j` is well formed and offers no edge. */
  predicate Passed(bs: seq<Block>, i: int, j: int, required: int, even: bool, minAddr: int, maxAddr: int)
    requires 0 <= i <= j <= |bs|
  {
    forall k :: i <= k < j ==> bs[k].start <= bs[k].end && ProbeBlock(bs[k], required, even, minAddr, maxAddr).NoEdge?
  }

  /** The indices from `i` up to `j` of the blocks that span the window. */
  function Spanning(bs: seq<Block>, i: int, j: int, required: int, even: bool, minAddr: int, maxAddr: int): seq<nat>
    requires 0 <= i <= j <= |bs|
    decreases j - i
  {
    if i == j then []
    else
      var here: seq<nat> := if ProbeBlock(bs[i], required, even, minAddr, maxAddr) == NoEdge(true) then [i] else [];
      here + Spanning(bs, i + 1, j, required, even, minAddr, maxAddr)
  }

  /** `Spanning` lists exactly the spanning blocks: it is empty when there is
      none, and otherwise starts with the first of them. */
  lemma {:induction false} SpanningFirst(bs: seq<Block>, i: int, j: int, required: int, even: bool, minAddr: int, maxAddr: int)
    requires 0 <= i <= j <= |bs|
    ensures var s := Spanning(bs, i, j, required, even, minAddr, maxAddr);
      && (|s| == 0 <==> forall k :: i <= k < j ==> ProbeBlock(bs[k], required, even, minAddr, maxAddr) != NoEdge(true))
      && (|s| > 0 ==>
            && i <= s[0] < j && ProbeBlock(bs[s[0]], required, even, minAddr, maxAddr) == NoEdge(true)
            && forall k :: i <= k < s[0] ==> ProbeBlock(bs[k], required, even, minAddr, maxAddr) != NoEdge(true))
    decreases j - i
  {
    if i < j {
      SpanningFirst(bs, i + 1, j, required, even, minAddr, maxAddr);
    }
  }

  /** `Spanning` is empty exactly when no block spans the window. */
  lemma {:induction false} SpanningNone(bs: seq<Block>, i: int, j: int, required: int, even: bool, minAddr: int, maxAddr: int)
    requires 0 <= i <= j <= |bs|
    ensures Spanning(bs, i, j, required, even, minAddr, maxAddr) == []
      <==> forall k :: i <= k < j ==> ProbeBlock(bs[k], required, even, minAddr, maxAddr) != NoEdge(true)
    decreases j - i
  {
    if i < j {
      SpanningNone(bs, i + 1, j, required, even, minAddr, maxAddr);
      var here: seq<nat> := if ProbeBlock(bs[i], required, even, minAddr, maxAddr) == NoEdge(true) then [i] else [];
      assert Spanning(bs, i, j, required, even, minAddr, maxAddr) == here + Spanning(bs, i + 1, j, required, even, minAddr, maxAddr);
    }
  }

  /** The edge through which block `k` served the request, as `Scan` applies it. */
  predicate EdgeResult(bs: seq<Block>, k: nat, p: Placement, required: int, even: bool, minAddr: int, maxAddr: int)
    requires k < |bs|
  {
    var b := bs[k];
    match ProbeBlock(b, required, even, minAddr, maxAddr)
    case LeftEdge(addr, pad) =>
      p == Placement(addr, Shrunk(bs, k, Block(b.start + required + pad, b.end, b.priority)), FromLeft(k))
    case RightEdge(addr, pad) =>
      p == Placement(addr, Shrunk(bs, k, Block(b.start, addr - pad - 1, b.priority)), FromRight(k))
    case NoEdge(_) => false
  }

  /** One step of the walk past a block that offers no edge. */
  lemma ScanPast(bs: seq<Block>, i: nat, toDivide: seq<nat>, required: int, even: bool, minAddr: int, maxAddr: int)
    requires i + 1 < |bs| && Before(toDivide, i)
    requires bs[i].start <= bs[i].end && ProbeBlock(bs[i], required, even, minAddr, maxAddr).NoEdge?
    ensures var c := if ProbeBlock(bs[i], required, even, minAddr, maxAddr).spans then toDivide + [i] else toDivide;
      && Before(c, i + 1)
      && Scan(bs, i, toDivide, required, even, minAddr, maxAddr) == Scan(bs, i + 1, c, required, even, minAddr, maxAddr)
      && toDivide + Spanning(bs, i, |bs|, required, even, minAddr, maxAddr) == c + Spanning(bs, i + 1, |bs|, required, even, minAddr, maxAddr)
  {
  }

  /** The walk stops at a malformed block and serves the request at a
      block that offers an edge. */
  lemma ScanHead(bs: seq<Block>, i: nat, toDivide: seq<nat>, required: int, even: bool, minAddr: int, maxAddr: int)
    requires i < |bs| && Before(toDivide, i)
    ensures var r := Scan(bs, i, toDivide, required, even, minAddr, maxAddr);
      && (bs[i].start > bs[i].end ==> r == Err(MemoryCorruption))
      && (bs[i].start <= bs[i].end && !ProbeBlock(bs[i], required, even, minAddr, maxAddr).NoEdge? ==>
            r.Ok? && r.value.how.index == i && !r.value.how.Divided? && EdgeResult(bs, i, r.value, required, even, minAddr, maxAddr))
  {
  }

  /** At the last block, with no edge there, the walk divides the first
      candidate or fails for lack of space. */
  lemma ScanAtLast(bs: seq<Block>, i: nat, toDivide: seq<nat>, required: int, even: bool, minAddr: int, maxAddr: int)
    requires i + 1 == |bs| && Before(toDivide, i)
    requires bs[i].start <= bs[i].end && ProbeBlock(bs[i], required, even, minAddr, maxAddr).NoEdge?
    ensures var c := toDivide + Spanning(bs, i, |bs|, required, even, minAddr, maxAddr);
      && Before(c, |bs|)
      && Scan(bs, i, toDivide, required, even, minAddr, maxAddr)
         == if |c| > 0 then Ok(Divide(bs, c[0], required, even, minAddr)) else Err(NoFreeSpace(required, minAddr, maxAddr))
  {
    var probe := ProbeBlock(bs[i], required, even, minAddr, maxAddr);
    var c := if probe.spans then toDivide + [i] else toDivide;
    assert Spanning(bs, i + 1, |bs|, required, even, minAddr, maxAddr) == [];
    assert toDivide + Spanning(bs, i, |bs|, required, even, minAddr, maxAddr) == c;
  }

  /** The walk from block `i` ends at a block's edge only at the first block
      that offers one. */
  lemma {:induction false} ScanEdge(bs: seq<Block>, i: nat, toDivide: seq<nat>, required: int, even: bool, minAddr: int, maxAddr: int)
    requires i < |bs| && Before(toDivide, i)
    requires var r := Scan(bs, i, toDivide, required, even, minAddr, maxAddr); r.Ok? && !r.value.how.Divided?
    ensures var p := Scan(bs, i, toDivide, required, even, minAddr, maxAddr).value;
      && i <= p.how.index < |bs| && Passed(bs, i, p.how.index, required, even, minAddr, maxAddr)
      && bs[p.how.index].start <= bs[p.how.index].end
      && EdgeResult(bs, p.how.index, p, required, even, minAddr, maxAddr)
    decreases |bs| - i
  {
    ScanHead(bs, i, toDivide, required, even, minAddr, maxAddr);
    var probe := ProbeBlock(bs[i], required, even, minAddr, maxAddr);
    if probe.NoEdge? {
      if i + 1 < |bs| {
        var c := if probe.spans then toDivide + [i] else toDivide;
        ScanPast(bs, i, toDivide, required, even, minAddr, maxAddr);
        ScanEdge(bs, i + 1, c, required, even, minAddr, maxAddr);
      } else {
        ScanAtLast(bs, i, toDivide, required, even, minAddr, maxAddr);
      }
    }
  }

  /** The walk from block `i` divides a block only when no block from `i` on
      offers an edge, and then divides the first candidate. */
  lemma {:induction false} ScanDivide(bs: seq<Block>, i: nat, toDivide: seq<nat>, required: int, even: bool, minAddr: int, maxAddr: int)
    requires i < |bs| && Before(toDivide, i)
    requires var r := Scan(bs, i, toDivide, required, even, minAddr, maxAddr); r.Ok? && r.value.how.Divided?
    ensures var p := Scan(bs, i, toDivide, required, even, minAddr, maxAddr).value;
      var c := toDivide + Spanning(bs, i, |bs|, required, even, minAddr, maxAddr);
      && Passed(bs, i, |bs|, required, even, minAddr, maxAddr)
      && |c| > 0 && p.how.index == c[0] && p.how.index < |bs|
      && p == Divide(bs, p.how.index, required, even, minAddr)
    decreases |bs| - i
  {
    ScanHead(bs, i, toDivide, required, even, minAddr, maxAddr);
    PassedFrom(bs, i, required, even, minAddr, maxAddr);
    var probe := ProbeBlock(bs[i], required, even, minAddr, maxAddr);
    if i + 1 < |bs| {
      var c := if probe.spans then toDivide + [i] else toDivide;
      ScanPast(bs, i, toDivide, required, even, minAddr, maxAddr);
      ScanDivide(bs, i + 1, c, required, even, minAddr, maxAddr);
    } else {
      ScanAtLast(bs, i, toDivide, required, even, minAddr, maxAddr);
      assert Passed(bs, i + 1, |bs|, required, even, minAddr, maxAddr);
    }
  }

  /** The walk from block `i` fails for lack of space exactly when no block
      from `i` on offers an edge and there is no candidate for division. */
  lemma {:induction false} ScanNoSpace(bs: seq<Block>, i: nat, toDivide: seq<nat>, required: int, even: bool, minAddr: int, maxAddr: int)
    requires i < |bs| && Before(toDivide, i)
    ensures Scan(bs, i, toDivide, required, even, minAddr, maxAddr) == Err(NoFreeSpace(required, minAddr, maxAddr))
      <==> Passed(bs, i, |bs|, required, even, minAddr, maxAddr) && toDivide + Spanning(bs, i, |bs|, required, even, minAddr, maxAddr) == []
    decreases |bs| - i
  {
    var probe := ProbeBlock(bs[i], required, even, minAddr, maxAddr);
    PassedFrom(bs, i, required, even, minAddr, maxAddr);
    ScanHead(bs, i, toDivide, required, even, minAddr, maxAddr);
    if bs[i].start <= bs[i].end && probe.NoEdge? {
      if i + 1 < |bs| {
        var c := if probe.spans then toDivide + [i] else toDivide;
        ScanPast(bs, i, toDivide, required, even, minAddr, maxAddr);
        ScanNoSpace(bs, i + 1, c, required, even, minAddr, maxAddr);
      } else {
        ScanAtLast(bs, i, toDivide, required, even, minAddr, maxAddr);
        assert Passed(bs, i + 1, |bs|, required, even, minAddr, maxAddr);
      }
    }
  }

  /** `Passed` from `i` splits into block `i` and the rest. */
  lemma PassedFrom(bs: seq<Block>, i: nat, required: int, even: bool, minAddr: int, maxAddr: int)
    requires i < |bs|
    ensures Passed(bs, i, |bs|, required, even, minAddr, maxAddr)
      <==> bs[i].start <= bs[i].end && ProbeBlock(bs[i], required, even, minAddr, maxAddr).NoEdge?
           && Passed(bs, i + 1, |bs|, required, even, minAddr, maxAddr)
  {
  }

  /** What an edge placement of block `k` yields. */
  lemma EdgeFacts(bs: seq<Block>, k: nat, p: Placement, required: int, even: bool, minAddr: int, maxAddr: int)
    requires k < |bs| && EdgeResult(bs, k, p, required, even, minAddr, maxAddr)
    ensures InWindow(p.addr, required, minAddr, maxAddr)
    ensures even ==> p.addr % 2 == 0
    ensures bs[k].start <= p.addr && p.addr + required <= bs[k].end + 1
    ensures p.how.FromLeft? ==> p.blocks == Shrunk(bs, k, Block(p.addr + required, bs[k].end, bs[k].priority))
    ensures p.how.FromRight? ==>
      var pad := bs[k].end + 1 - required - p.addr;
      (pad == 0 || pad == 1) && p.blocks == Shrunk(bs, k, Block(bs[k].start, p.addr - pad - 1, bs[k].priority))
  {
    if ProbeBlock(bs[k], required, even, minAddr, maxAddr).LeftEdge? {
      LeftEdgeFits(bs[k], required, even, minAddr, maxAddr);
    } else {
      RightEdgeFits(bs[k], required, even, minAddr, maxAddr);
    }
  }

  /** An allocation at a block's edge comes from the first block, in
      priority order, that offers an edge; it lies in the window and inside
      that block, is even when asked, and only that block changes: it loses
      the allocation and its pad byte from the side it was taken from, and
      leaves the list when nothing is left of it. */
  lemma EdgeAllocation(blocks: seq<Block>, required: int, even: bool, minAddr: int, maxAddr: int)
    requires var a := Allocate(blocks, required, even, minAddr, maxAddr); a.Ok? && !a.value.how.Divided?
    ensures var p := Allocate(blocks, required, even, minAddr, maxAddr).value;
      var bs := SortByPriority(blocks);
      var k := p.how.index;
      && k < |bs| && Passed(bs, 0, k, required, even, minAddr, maxAddr)
      && InWindow(p.addr, required, minAddr, maxAddr)
      && (even ==> p.addr % 2 == 0)
      && bs[k].start <= p.addr && p.addr + required <= bs[k].end + 1
      && (p.how.FromLeft? ==> p.blocks == Shrunk(bs, k, Block(p.addr + required, bs[k].end, bs[k].priority)))
      && (p.how.FromRight? ==>
            var pad := bs[k].end + 1 - required - p.addr;
            (pad == 0 || pad == 1) && p.blocks == Shrunk(bs, k, Block(bs[k].start, p.addr - pad - 1, bs[k].priority)))
  {
    var bs := SortByPriority(blocks);
    ScanEdge(bs, 0, [], required, even, minAddr, maxAddr);
    var p := Allocate(blocks, required, even, minAddr, maxAddr).value;
    EdgeFacts(bs, p.how.index, p, required, even, minAddr, maxAddr);
  }

  /** Shrinking one block leaves every other block where it was. */
  lemma ShrunkKeepsOthers(bs: seq<Block>, k: nat, b: Block)
    requires k < |bs|
    ensures var s := Shrunk(bs, k, b);
      && (forall j :: 0 <= j < k ==> s[j] == bs[j])
      && (b.start <= b.end ==> |s| == |bs| && s[k] == b && forall j :: k < j < |bs| ==> s[j] == bs[j])
      && (b.start > b.end ==> |s| == |bs| - 1 && forall j :: k < j < |bs| ==> s[j - 1] == bs[j])
  {
  }

  /** A division happens only when no block offers an edge. It uses the
      first block, in priority order, that spans the window, places the
      request at `minAddr` (padded when an even address is asked), cuts the
      block below it and appends the rest above it with priority 99. */
  lemma DivideAllocation(blocks: seq<Block>, required: int, even: bool, minAddr: int, maxAddr: int)
    requires var a := Allocate(blocks, required, even, minAddr, maxAddr); a.Ok? && a.value.how.Divided?
    ensures var p := Allocate(blocks, required, even, minAddr, maxAddr).value;
      var bs := SortByPriority(blocks);
      var k := p.how.index;
      && k < |bs| && Passed(bs, 0, |bs|, required, even, minAddr, maxAddr)
      && bs[k].start <= minAddr && maxAddr <= bs[k].end
      && (forall j :: 0 <= j < k ==> ProbeBlock(bs[j], required, even, minAddr, maxAddr) != NoEdge(true))
      && p.addr == minAddr + Pad(even, minAddr)
      && (even ==> p.addr % 2 == 0)
      && p.blocks == bs[k := Block(bs[k].start, p.addr - 1, bs[k].priority)] + [Block(p.addr + required, bs[k].end, DividedPriority)]
  {
    var bs := SortByPriority(blocks);
    ScanDivide(bs, 0, [], required, even, minAddr, maxAddr);
    SpanningFirst(bs, 0, |bs|, required, even, minAddr, maxAddr);
    assert [] + Spanning(bs, 0, |bs|, required, even, minAddr, maxAddr) == Spanning(bs, 0, |bs|, required, even, minAddr, maxAddr);
    var k := Allocate(blocks, required, even, minAddr, maxAddr).value.how.index;
    SpanningBlock(bs[k], required, even, minAddr, maxAddr);
  }

  /** The request fails for lack of space exactly when the list is not empty,
      every block is well formed, and no block offers an edge or spans the
      window. */
  lemma NoSpaceExactly(blocks: seq<Block>, required: int, even: bool, minAddr: int, maxAddr: int)
    ensures var bs := SortByPriority(blocks);
      Allocate(blocks, required, even, minAddr, maxAddr) == Err(NoFreeSpace(required, minAddr, maxAddr))
      <==> (&& |bs| > 0
            && Passed(bs, 0, |bs|, required, even, minAddr, maxAddr)
            && forall k :: 0 <= k < |bs| ==> ProbeBlock(bs[k], required, even, minAddr, maxAddr) != NoEdge(true))
  {
    var bs := SortByPriority(blocks);
    if |bs| > 0 {
      assert Allocate(blocks, required, even, minAddr, maxAddr) == Scan(bs, 0, [], required, even, minAddr, maxAddr);
      ScanNoSpace(bs, 0, [], required, even, minAddr, maxAddr);
      var s := Spanning(bs, 0, |bs|, required, even, minAddr, maxAddr);
      SpanningNone(bs, 0, |bs|, required, even, minAddr, maxAddr);
      assert [] + s == s;
    }
  }

  /** A division does not test `maxAddr`: with one free block `[0, 1000]` and
      a 20-byte request inside `[100, 110]`, the request is placed at 100 and
      its end (120) passes the window's end. */
  lemma DivideIgnoresMax()
    ensures Allocate([Block(0, 1000, 0)], 20, false, 100, 110)
      == Ok(Placement(100, [Block(0, 99, 0), Block(120, 1000, DividedPriority)], Divided(0)))
    ensures 100 + 20 > 110
  {
    var bs := [Block(0, 1000, 0)];
    assert SortByPriority(bs) == bs;
    assert ProbeBlock(bs[0], 20, false, 100, 110) == NoEdge(true);
    assert Scan(bs, 0, [], 20, false, 100, 110) == Ok(Divide(bs, 0, 20, false, 100));
    assert Divide(bs, 0, 20, false, 100).blocks == [Block(0, 99, 0), Block(120, 1000, DividedPriority)];
  }

  /** A division at a `minAddr` that is the block's own start leaves a block
      whose end lies before its start, and the next request then fails with
      a memory corruption whatever it asks. */
  lemma DivideAtStartCorrupts(required: int, even: bool, minAddr: int, maxAddr: int)
    ensures Allocate([Block(0, 1000, 0)], 20, false, 0, 10).Ok?
    ensures var after := Allocate([Block(0, 1000, 0)], 20, false, 0, 10).value.blocks;
      Allocate(after, required, even, minAddr, maxAddr) == Err(MemoryCorruption)
  {
    var bs := [Block(0, 1000, 0)];
    assert SortByPriority(bs) == bs;
    assert ProbeBlock(bs[0], 20, false, 0, 10) == NoEdge(true);
    var after := [Block(0, -1, 0), Block(20, 1000, DividedPriority)];
    assert Scan(bs, 0, [], 20, false, 0, 10) == Ok(Divide(bs, 0, 20, false, 0));
    assert Divide(bs, 0, 20, false, 0).blocks == after;
    assert SortByPriority([Block(20, 1000, DividedPriority)]) == [Block(20, 1000, DividedPriority)];
    assert SortByPriority(after) == after;
  }
}
