/** The exporter's bookkeeping over decoded scripts (Ruby/main.rb): the
    address sort it relies on, `Array#to_ranges` over the used addresses, and
    the group numbering of `assignGroups_populateHash`. */
module Scripts {
  import opened Wrappers
  import opened Opcodes

  // ---------------------------------------------------------------------
  // Sorting a set of addresses

  predicate Increasing(s: seq<int>) {
    forall i, j :: 0 <= i < j < |s| ==> s[i] < s[j]
  }

  predicate IsMin(m: int, s: set<int>) {
    m in s && forall y :: y in s ==> m <= y
  }

  lemma {:induction false} MinExists(s: set<int>)
    requires s != {}
    ensures exists m :: IsMin(m, s)
    decreases |s|
  {
    var x := PickOne(s);
    if s == {x} {
      assert IsMin(x, s);
    } else {
      MinExists(s - {x});
      var m :| IsMin(m, s - {x});
      var least := if x < m then x else m;
      forall y | y in s
        ensures least <= y
      {
        if y != x {
          assert y in s - {x};
        }
      }
      assert IsMin(least, s);
    }
  }

  lemma PickOne(s: set<int>) returns (x: int)
    requires s != {}
    ensures x in s
  {
    if forall y :: y !in s {
      assert false;
    }
    x :| x in s;
  }

  /** The elements of `s` in ascending order (what `sort` makes of them). */
  ghost function SortedSeq(s: set<int>): (r: seq<int>)
    ensures Increasing(r) && |r| == |s|
    ensures forall x :: x in r <==> x in s
    decreases |s|
  {
    if s == {} then []
    else
      MinExists(s);
      var m :| IsMin(m, s);
      [m] + SortedSeq(s - {m})
  }

  /** Taking out the least element leaves the rest of the order. */
  lemma SortedSeqStep(s: set<int>, m: int, done: seq<int>, whole: seq<int>)
    requires IsMin(m, s) && whole == done + SortedSeq(s)
    ensures whole == (done + [m]) + SortedSeq(s - {m})
  {
    SortedSeqFirst(s, m);
    assert (done + [m]) + SortedSeq(s - {m}) == done + ([m] + SortedSeq(s - {m}));
  }

  /** The least element of a set is the only one `IsMin` admits, so it is
      the head of the ascending order. */
  lemma SortedSeqFirst(s: set<int>, m: int)
    requires IsMin(m, s)
    ensures SortedSeq(s) == [m] + SortedSeq(s - {m})
  {
    forall a | IsMin(a, s)
      ensures a == m
    {
    }
  }

  /** `sort` on distinct addresses: repeatedly takes out the least one. */
  method SortAddrs(s: set<int>) returns (r: seq<int>)
    ensures r == SortedSeq(s)
  {
    r := [];
    var rest := s;
    while rest != {}
      invariant SortedSeq(s) == r + SortedSeq(rest)
      decreases |rest|
    {
      MinExists(rest);
      var m :| IsMin(m, rest);
      SortedSeqStep(rest, m, r, SortedSeq(s));
      r := r + [m];
      rest := rest - {m};
    }
    assert r + [] == r;
  }

  // ---------------------------------------------------------------------
  // `Array#to_ranges`

  /** The ranges `to_ranges` builds over the ascending `sorted`, with `left`
      the first range's start: a new range begins wherever the next address
      is not the successor of the previous one. */
  function RangesFrom(sorted: seq<int>, left: int, right: Option<int>): seq<(int, int)>
    decreases |sorted|
  {
    if |sorted| == 0 then (if right.Some? then [(left, right.value)] else [])
    else
      var obj := sorted[0];
      if right.Some? && obj != right.value + 1 then [(left, right.value)] + RangesFrom(sorted[1..], obj, Some(obj))
      else RangesFrom(sorted[1..], left, Some(obj))
  }

  /** `to_ranges` as written: the first range starts at the first element of
      the receiver, not at the least one. */
  ghost function ToRangesSpec(xs: seq<int>): seq<(int, int)> {
    var sorted := SortedSeq(set x | x in xs);
    if |sorted| == 0 then [] else RangesFrom(sorted, xs[0], None)
  }

  /** `to_ranges` with the first range starting at the least element. */
  ghost function ToRangesFixed(xs: seq<int>): seq<(int, int)> {
    var sorted := SortedSeq(set x | x in xs);
    if |sorted| == 0 then [] else RangesFrom(sorted, sorted[0], None)
  }

  /** `Array#to_ranges`. */
  method ToRanges(xs: seq<int>) returns (ranges: seq<(int, int)>)
    ensures ranges == ToRangesSpec(xs)
  {
    var sorted := SortAddrs(set x | x in xs);
    ranges := [];
    if |sorted| > 0 {
      ranges := RangesLoop(sorted, xs[0]);
    }
  }

  /** The left/right accumulator loop of `to_ranges`. */
  method RangesLoop(sorted: seq<int>, first: int) returns (ranges: seq<(int, int)>)
    requires |sorted| > 0
    ensures ranges == RangesFrom(sorted, first, None)
  {
    ranges := [];
    var left := first;
    var right: Option<int> := None;
    var i := 0;
    while i < |sorted|
      invariant 0 <= i <= |sorted|
      invariant i > 0 ==> right.Some?
      invariant ranges + RangesFrom(sorted[i..], left, right) == RangesFrom(sorted, first, None)
    {
      var obj := sorted[i];
      RangesStep(sorted[i..], left, right);
      assert sorted[i..][1..] == sorted[i + 1..];
      if right.Some? && obj != right.value + 1 {
        assert ranges + RangesFrom(sorted[i..], left, right)
            == (ranges + [(left, right.value)]) + RangesFrom(sorted[i + 1..], obj, Some(obj));
        ranges := ranges + [(left, right.value)];
        left := obj;
      }
      right := Some(obj);
      i := i + 1;
    }
    assert sorted[i..] == [];
    ranges := ranges + [(left, right.value)];
  }

  lemma RangesStep(sorted: seq<int>, left: int, right: Option<int>)
    requires |sorted| > 0
    ensures RangesFrom(sorted, left, right)
         == if right.Some? && sorted[0] != right.value + 1
            then [(left, right.value)] + RangesFrom(sorted[1..], sorted[0], Some(sorted[0]))
            else RangesFrom(sorted[1..], left, Some(sorted[0]))
  {
  }

  /** Address `x` lies in one of the ranges. */
  predicate Covered(rs: seq<(int, int)>, x: int) {
    exists k :: 0 <= k < |rs| && rs[k].0 <= x <= rs[k].1
  }

  /** Ranges that are non-empty, ascending and separated by at least one
      address that none of them covers. */
  predicate Separated(rs: seq<(int, int)>) {
    (forall k :: 0 <= k < |rs| ==> rs[k].0 <= rs[k].1) &&
    (forall k :: 0 <= k < |rs| - 1 ==> rs[k].1 + 1 < rs[k + 1].0)
  }

  /** The ranges of a run `left..right` followed by the addresses `s`. */
  ghost predicate RangesOk(rs: seq<(int, int)>, s: seq<int>, left: int, right: int) {
    && |rs| >= 1 && rs[0].0 == left && rs[0].1 >= right
    && Separated(rs)
    && forall x :: Covered(rs, x) <==> (x in s || left <= x <= right)
  }

  /** With a pending run `left..right` below every remaining address, the
      ranges cover the run and the remaining addresses and nothing else. */
  lemma {:induction false} RangesShape(s: seq<int>, left: int, right: int)
    requires Increasing(s) && left <= right
    requires forall i :: 0 <= i < |s| ==> s[i] > right
    ensures RangesOk(RangesFrom(s, left, Some(right)), s, left, right)
    decreases |s|
  {
    if |s| == 0 {
      RangesLast(left, right);
    } else if s[0] == right + 1 {
      RangesShape(s[1..], left, s[0]);
      RangesExtend(s, left, right);
    } else {
      RangesShape(s[1..], s[0], s[0]);
      RangesBreak(s, left, right);
    }
  }

  lemma RangesLast(left: int, right: int)
    requires left <= right
    ensures RangesOk(RangesFrom([], left, Some(right)), [], left, right)
  {
    var rs := RangesFrom([], left, Some(right));
    assert rs == [(left, right)];
    forall x | left <= x <= right
      ensures Covered(rs, x)
    {
      assert rs[0].0 <= x <= rs[0].1;
    }
  }

  lemma HeadOrTail(s: seq<int>, x: int)
    requires |s| > 0
    ensures x in s <==> x == s[0] || x in s[1..]
  {
    if x in s {
      var i :| 0 <= i < |s| && s[i] == x;
      if i > 0 {
        assert s[1..][i - 1] == x;
      }
    }
  }

  lemma RangesExtend(s: seq<int>, left: int, right: int)
    requires |s| > 0 && s[0] == right + 1 && left <= right
    requires RangesOk(RangesFrom(s[1..], left, Some(s[0])), s[1..], left, s[0])
    ensures RangesOk(RangesFrom(s, left, Some(right)), s, left, right)
  {
    assert RangesFrom(s, left, Some(right)) == RangesFrom(s[1..], left, Some(s[0]));
    forall x
      ensures x in s <==> x == s[0] || x in s[1..]
    {
      HeadOrTail(s, x);
    }
  }

  lemma RangesBreak(s: seq<int>, left: int, right: int)
    requires |s| > 0 && s[0] > right + 1 && left <= right
    requires RangesOk(RangesFrom(s[1..], s[0], Some(s[0])), s[1..], s[0], s[0])
    ensures RangesOk(RangesFrom(s, left, Some(right)), s, left, right)
  {
    var rest := RangesFrom(s[1..], s[0], Some(s[0]));
    var rs := RangesFrom(s, left, Some(right));
    assert rs == [(left, right)] + rest;
    forall x
      ensures Covered(rs, x) <==> (x in s || left <= x <= right)
    {
      HeadOrTail(s, x);
      if Covered(rs, x) {
        var k :| 0 <= k < |rs| && rs[k].0 <= x <= rs[k].1;
        if k > 0 {
          assert rest[k - 1] == rs[k];
          assert Covered(rest, x);
        }
      }
      if x in s {
        assert Covered(rest, x);
        var k :| 0 <= k < |rest| && rest[k].0 <= x <= rest[k].1;
        assert rs[k + 1] == rest[k];
      }
      if left <= x <= right {
        assert rs[0].0 <= x <= rs[0].1;
      }
    }
  }

  /** `to_ranges` with the least element as the first start compacts the
      addresses exactly: its ranges cover every address of the receiver and
      no other, and are ascending with gaps between them. */
  lemma ToRangesFixedCovers(xs: seq<int>)
    ensures var rs := ToRangesFixed(xs);
            && Separated(rs)
            && forall x :: Covered(rs, x) <==> x in xs
  {
    var sorted := SortedSeq(set x | x in xs);
    forall x
      ensures x in sorted <==> x in xs
    {
      assert x in xs <==> x in set y | y in xs;
    }
    if |sorted| > 0 {
      SortedRanges(sorted);
    }
  }

  /** The ranges of an ascending, non-empty sequence started at its first
      element cover exactly its elements. */
  lemma SortedRanges(sorted: seq<int>)
    requires Increasing(sorted) && |sorted| > 0
    ensures var rs := RangesFrom(sorted, sorted[0], None);
            && Separated(rs)
            && forall x :: Covered(rs, x) <==> x in sorted
  {
    assert forall i :: 0 <= i < |sorted[1..]| ==> sorted[1..][i] == sorted[i + 1];
    RangesShape(sorted[1..], sorted[0], sorted[0]);
    forall x
      ensures x in sorted <==> x == sorted[0] || x in sorted[1..]
    {
      HeadOrTail(sorted, x);
    }
  }

  /** When the first element is the least one, `to_ranges` as written agrees
      with the corrected version. */
  lemma ToRangesFirstLeast(xs: seq<int>)
    requires |xs| > 0 && forall i :: 0 <= i < |xs| ==> xs[0] <= xs[i]
    ensures ToRangesSpec(xs) == ToRangesFixed(xs)
  {
    var sorted := SortedSeq(set x | x in xs);
    assert xs[0] in set x | x in xs;
    assert xs[0] in sorted;
    var j :| 0 <= j < |sorted| && sorted[j] == xs[0];
    assert sorted[0] in set x | x in xs;
    assert sorted[0] == xs[0];
  }

  /** `to_ranges` as written on `[5, 1]`: the first range is seeded with 5,
      so it yields the reversed range 5..1 and then 5..5, and address 1 is in
      no range. */
  lemma ToRangesLosesLeast()
    ensures ToRangesSpec([5, 1]) == [(5, 1), (5, 5)]
    ensures !Covered(ToRangesSpec([5, 1]), 1)
  {
    var s := set x | x in [5, 1];
    assert s == {1, 5};
    var sorted := SortedSeq(s);
    assert sorted[0] in s && sorted[1] in s && sorted[0] < sorted[1];
    assert sorted == [1, 5];
    assert RangesFrom(sorted, 5, None) == RangesFrom([5], 5, Some(1));
    assert [5][1..] == [];
  }

  // ---------------------------------------------------------------------
  // Group numbering (`assignGroups_populateHash`)

  /** One entry of the decoded-address table: the instruction id and its
      length in bytes. */
  datatype PtrEntry = PtrEntry(id: int, length: int)

  /** How far the group number moves past the instruction at `addr`: by 2
      when no decoded instruction starts right after it, by 1 after an exit
      or a jump that is followed by an instruction, by 0 otherwise. */
  function GroupStep(addr: int, ptrs: map<int, PtrEntry>, name: OpName): (d: int)
    requires addr in ptrs
    ensures 0 <= d <= 2
  {
    if addr + ptrs[addr].length !in ptrs then 2
    else if name == OpExit || name == OpJump then 1
    else 0
  }

  /** The group number of each address of `order`, starting from `g`, and the
      number after the last one. */
  function GroupIds(order: seq<int>, ptrs: map<int, PtrEntry>, names: map<int, OpName>, g: int): (r: Result<(seq<int>, int), Fault>)
    requires forall i :: 0 <= i < |order| ==> order[i] in ptrs
    ensures r.Ok? ==> |r.value.0| == |order|
    decreases |order|
  {
    if |order| == 0 then Ok(([], g))
    else
      var id := ptrs[order[0]].id;
      if id !in names then Err(UnknownOpcode(id))
      else
        var rest :- GroupIds(order[1..], ptrs, names, g + GroupStep(order[0], ptrs, names[id]));
        Ok(([g] + rest.0, rest.1))
  }

  /** The name recorded for the instruction at `addr`. */
  function NameAt(addr: int, ptrs: map<int, PtrEntry>, names: map<int, OpName>): OpName
    requires addr in ptrs && ptrs[addr].id in names
  {
    names[ptrs[addr].id]
  }

  /** Group numbering fails exactly on an instruction without a name; the
      first instruction gets `g`, and each next one the number of the one
      before it plus that one's step. */
  lemma {:induction false} GroupIdsAt(order: seq<int>, ptrs: map<int, PtrEntry>, names: map<int, OpName>, g: int)
    requires forall i :: 0 <= i < |order| ==> order[i] in ptrs
    ensures var r := GroupIds(order, ptrs, names, g);
            r.Ok? <==> forall i :: 0 <= i < |order| ==> ptrs[order[i]].id in names
    ensures var r := GroupIds(order, ptrs, names, g);
            r.Ok? ==> var (ids, last) := r.value;
              && |ids| == |order|
              && (|order| == 0 ==> last == g)
              && (|order| > 0 ==> ids[0] == g && last == ids[|order| - 1] + GroupStep(order[|order| - 1], ptrs, NameAt(order[|order| - 1], ptrs, names)))
              && forall i :: 0 <= i < |order| - 1 ==> ids[i + 1] == ids[i] + GroupStep(order[i], ptrs, NameAt(order[i], ptrs, names))
    decreases |order|
  {
    if |order| > 0 {
      var id := ptrs[order[0]].id;
      var tail := order[1..];
      assert forall i :: 0 <= i < |tail| ==> tail[i] == order[i + 1];
      if id in names {
        var g' := g + GroupStep(order[0], ptrs, names[id]);
        GroupIdsAt(tail, ptrs, names, g');
        var r := GroupIds(tail, ptrs, names, g');
        if r.Ok? {
          var ids := [g] + r.value.0;
          forall i | 0 <= i < |order| - 1
            ensures ids[i + 1] == ids[i] + GroupStep(order[i], ptrs, NameAt(order[i], ptrs, names))
          {
            if i > 0 {
              assert ids[i + 1] == r.value.0[i] && ids[i] == r.value.0[i - 1];
            }
          }
        }
      }
    }
  }

  /** Group numbers never decrease in address order, and the number after
      the last instruction is at least every number handed out. */
  lemma GroupIdsMonotone(order: seq<int>, ptrs: map<int, PtrEntry>, names: map<int, OpName>, g: int)
    requires forall i :: 0 <= i < |order| ==> order[i] in ptrs
    requires GroupIds(order, ptrs, names, g).Ok?
    ensures var (ids, last) := GroupIds(order, ptrs, names, g).value;
            forall i, j :: 0 <= i <= j < |ids| ==> g <= ids[i] <= ids[j] <= last
  {
    GroupIdsAt(order, ptrs, names, g);
    var (ids, last) := GroupIds(order, ptrs, names, g).value;
    forall i, j | 0 <= i <= j < |ids|
      ensures g <= ids[i] <= ids[j] <= last
    {
      Climb(ids, 0, i, order, ptrs, names);
      Climb(ids, i, j, order, ptrs, names);
      Climb(ids, j, |ids| - 1, order, ptrs, names);
    }
  }

  lemma {:induction false} Climb(ids: seq<int>, i: int, j: int, order: seq<int>, ptrs: map<int, PtrEntry>, names: map<int, OpName>)
    requires |ids| == |order| && 0 <= i <= j < |ids|
    requires forall k :: 0 <= k < |order| ==> order[k] in ptrs && ptrs[order[k]].id in names
    requires forall k :: 0 <= k < |order| - 1 ==> ids[k + 1] == ids[k] + GroupStep(order[k], ptrs, NameAt(order[k], ptrs, names))
    ensures ids[i] <= ids[j]
    decreases j - i
  {
    if i < j {
      Climb(ids, i, j - 1, order, ptrs, names);
    }
  }

  function ResumeIds(acc: seq<int>, r: Result<(seq<int>, int), Fault>): Result<(seq<int>, int), Fault> {
    if r.Ok? then Ok((acc + r.value.0, r.value.1)) else r
  }

  /** The numbering loop's first turn: nothing numbered yet. */
  lemma IdsStart(order: seq<int>, ptrs: map<int, PtrEntry>, names: map<int, OpName>)
    requires forall i :: 0 <= i < |order| ==> order[i] in ptrs
    ensures GroupIds(order, ptrs, names, 0) == ResumeIds([], GroupIds(order[0..], ptrs, names, 0))
  {
    assert order[0..] == order;
    var r := GroupIds(order, ptrs, names, 0);
    if r.Ok? {
      assert [] + r.value.0 == r.value.0;
    }
  }

  /** One turn of the numbering loop at position `i`, with running number `g`. */
  lemma IdsStep(order: seq<int>, ptrs: map<int, PtrEntry>, names: map<int, OpName>, i: int, g: int, acc: seq<int>)
    requires forall k :: 0 <= k < |order| ==> order[k] in ptrs
    requires 0 <= i < |order|
    requires GroupIds(order, ptrs, names, 0) == ResumeIds(acc, GroupIds(order[i..], ptrs, names, g))
    ensures ptrs[order[i]].id !in names ==> GroupIds(order, ptrs, names, 0) == Err(UnknownOpcode(ptrs[order[i]].id))
    ensures ptrs[order[i]].id in names ==>
              GroupIds(order, ptrs, names, 0)
              == ResumeIds(acc + [g], GroupIds(order[i + 1..], ptrs, names, g + GroupStep(order[i], ptrs, NameAt(order[i], ptrs, names))))
  {
    var tail := order[i..];
    assert tail[0] == order[i] && tail[1..] == order[i + 1..];
    if ptrs[order[i]].id in names {
      var r := GroupIds(order[i + 1..], ptrs, names, g + GroupStep(order[i], ptrs, NameAt(order[i], ptrs, names)));
      if r.Ok? {
        assert acc + ([g] + r.value.0) == (acc + [g]) + r.value.0;
      }
    }
  }

  lemma IdsEnd(order: seq<int>, ptrs: map<int, PtrEntry>, names: map<int, OpName>, g: int, acc: seq<int>)
    requires forall k :: 0 <= k < |order| ==> order[k] in ptrs
    requires GroupIds(order, ptrs, names, 0) == ResumeIds(acc, GroupIds(order[|order|..], ptrs, names, g))
    ensures GroupIds(order, ptrs, names, 0) == Ok((acc, g))
  {
    assert order[|order|..] == [];
    assert acc + [] == acc;
  }

  /** The map from each key of `ks` to the value at the same position. */
  function ZipMap(ks: seq<int>, vs: seq<int>): map<int, int>
    requires |ks| == |vs|
    decreases |ks|
  {
    if |ks| == 0 then map[]
    else ZipMap(ks[..|ks| - 1], vs[..|vs| - 1])[ks[|ks| - 1] := vs[|vs| - 1]]
  }

  /** The zipped map has exactly the keys of `ks`. */
  lemma {:induction false} ZipMapKeys(ks: seq<int>, vs: seq<int>)
    requires |ks| == |vs|
    ensures forall x :: x in ZipMap(ks, vs) <==> x in ks
    decreases |ks|
  {
    if |ks| > 0 {
      var n := |ks| - 1;
      ZipMapKeys(ks[..n], vs[..n]);
      assert ks == ks[..n] + [ks[n]];
    }
  }

  /** With keys in increasing order, each key of the zipped map holds the
      value at its own position. */
  lemma {:induction false} ZipMapAt(ks: seq<int>, vs: seq<int>)
    requires |ks| == |vs| && Increasing(ks)
    ensures forall i :: 0 <= i < |ks| ==> ks[i] in ZipMap(ks, vs) && ZipMap(ks, vs)[ks[i]] == vs[i]
    decreases |ks|
  {
    ZipMapKeys(ks, vs);
    if |ks| > 0 {
      var n := |ks| - 1;
      ZipMapAt(ks[..n], vs[..n]);
      ZipMapKeys(ks[..n], vs[..n]);
      forall i | 0 <= i < |ks|
        ensures ks[i] in ZipMap(ks, vs) && ZipMap(ks, vs)[ks[i]] == vs[i]
      {
        if i < n {
          assert ks[i] < ks[n];
          assert ks[..n][i] == ks[i] && vs[..n][i] == vs[i];
        }
      }
    }
  }
}
