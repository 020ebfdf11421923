/** The projection loop of fxPrepareHeap over the arena, proved against the fold of the
    Projection module. */
module ProjectionLoop {
  import opened Slots
  import opened Prepare
  import opened Projection

  /** The element loop: every element sealed, and one index taken for each. */
  method SealElements(mem: array<Slot>, base: nat, count: nat, index: int) returns (index': int)
    requires base + count <= mem.Length
    modifies mem
    ensures mem[..] == SealRange(old(mem[..]), base, base + count)
    ensures index' == index + count
  {
    ghost var s0 := mem[..];
    index' := index;
    var item := base;
    var size := count;
    while size > 0
      invariant item == base + count - size && 0 <= size <= count
      invariant index' == index + item - base
      invariant mem[..] == SealRange(s0, base, item)
    {
      index' := index' + 1;
      SealRangeAt(s0, base, item, item);
      var flag := mem[item].flag;
      if !mem[item].kind.Accessor? {
        flag := flag + {DontSet};
      }
      flag := flag + {DontDelete};
      assert mem[item].(flag := flag) == Seal(mem[item]);
      mem[item] := mem[item].(flag := flag);
      item := item + 1;
      size := size - 1;
    }
  }

  /** The body of the loop for a live slot. */
  method ProjectLive(mem: array<Slot>, c: Context, a: nat, index: int, bigintSize: int)
    returns (index': int, bigintSize': int)
    requires Wf(mem[..]) && a < mem.Length && Mark !in mem[a].flag
    modifies mem
    ensures Tally(mem[..], index', bigintSize') == ProjectStep(c, Tally(old(mem[..]), index, bigintSize), a)
  {
    assert SlotOk(|mem[..]|, mem[..][a]);
    index' := index + 1;
    bigintSize' := bigintSize;
    var item := if mem[a].kind.Array? then mem[a].kind.address else Null;
    if mem[a].kind.Array? && item.Ptr? {
      var size := mem[a].kind.count;
      index' := index' + 1;
      index' := SealElements(mem, item.at, size, index');
      mem[a] := mem[a].(flag := mem[a].flag + {DontDelete, DontSet});
    } else if mem[a].kind.Instance? {
      PrepareShapeM(mem, c, a);
    } else if mem[a].kind.BigInt? {
      bigintSize' := bigintSize' + mem[a].kind.size;
    }
  }
  /** One slot of the loop, with the index of a live slot recorded in the table. */
  method ProjectNext(mem: array<Slot>, c: Context, slot: nat, indexes: array<int>, j: nat,
                     index: int, bigintSize: int)
    returns (index': int, bigintSize': int)
    requires slot < mem.Length && Wf(mem[..]) && j < indexes.Length
    modifies mem, indexes
    ensures Tally(mem[..], index', bigintSize') == ProjectStep(c, Tally(old(mem[..]), index, bigintSize), slot)
    ensures indexes[..] == if Mark in old(mem[..])[slot].flag then old(indexes[..]) else old(indexes[..])[j := index]
  {
    index', bigintSize' := index, bigintSize;
    if Mark !in mem[slot].flag {
      indexes[j] := index;
      index', bigintSize' := ProjectLive(mem, c, slot, index, bigintSize);
    }
  }

  /** One turn of the loop over one segment. */
  method FillSlot(mem: array<Slot>, c: Context, seg: Segment, indexes: array<int>, slot: nat,
                  index: int, bigintSize: int, ghost t0: Tally)
    returns (index': int, bigintSize': int)
    requires slot < seg.limit && mem.Length == |t0.slots| && indexes.Length == seg.limit - seg.heap
    requires Filling(LoopStep(c), t0, seg, slot, Tally(mem[..], index, bigintSize), indexes[..])
    modifies mem, indexes
    ensures Filling(LoopStep(c), t0, seg, slot + 1, Tally(mem[..], index', bigintSize'), indexes[..])
  {
    ghost var t := Tally(mem[..], index, bigintSize);
    ghost var table := indexes[..];
    index', bigintSize' := ProjectNext(mem, c, slot, indexes, slot - seg.heap, index, bigintSize);
    LoopStepOk(c);
    assert LoopStep(c)(t, slot) == ProjectStep(c, t, slot);
    RunStep(LoopStep(c), t0, seg.heap + 1, slot, t, Tally(mem[..], index', bigintSize'));
    TableNext(t0.slots, seg, t0.index, slot, t, table, indexes[..]);
  }

  /** The loop over one segment, filling its cleared index table. */
  method FillSegment(mem: array<Slot>, c: Context, seg: Segment, indexes: array<int>, index: int, bigintSize: int)
    returns (index': int, bigintSize': int)
    requires seg.heap < seg.limit <= mem.Length && Wf(mem[..])
    requires indexes.Length == seg.limit - seg.heap && forall j :: 0 <= j < indexes.Length ==> indexes[j] == 0
    modifies mem, indexes
    ensures Tally(mem[..], index', bigintSize') == ProjectRun(LoopStep(c), Tally(old(mem[..]), index, bigintSize), seg.heap + 1, seg.limit)
    ensures indexes[..] == IndexTable(old(mem[..]), seg, index, seg.limit - seg.heap)
  {
    ghost var t0 := Tally(old(mem[..]), index, bigintSize);
    assert indexes[..1] == [0] == IndexTable(t0.slots, seg, index, 1);
    index', bigintSize' := index, bigintSize;
    var slot: nat := seg.heap + 1;
    while slot < seg.limit
      invariant Filling(LoopStep(c), t0, seg, slot, Tally(mem[..], index', bigintSize'), indexes[..])
    {
      index', bigintSize' := FillSlot(mem, c, seg, indexes, slot, index', bigintSize', t0);
      slot := slot + 1;
    }
    assert indexes[..] == indexes[..seg.limit - seg.heap];
  }

  /** One segment of the loop: a cleared index table is allocated for it and filled. */
  method ProjectSegment(mem: array<Slot>, c: Context, seg: Segment, index: int, bigintSize: int)
    returns (projection: Projection, index': int, bigintSize': int)
    requires seg.heap < seg.limit <= mem.Length && Wf(mem[..])
    modifies mem
    ensures Tally(mem[..], index', bigintSize') == ProjectRun(LoopStep(c), Tally(old(mem[..]), index, bigintSize), seg.heap + 1, seg.limit)
    ensures projection == Projection(seg.heap, seg.limit, IndexTable(old(mem[..]), seg, index, seg.limit - seg.heap))
  {
    var indexes := new int[seg.limit - seg.heap](_ => 0);
    index', bigintSize' := FillSegment(mem, c, seg, indexes, index, bigintSize);
    projection := Projection(seg.heap, seg.limit, indexes[..]);
  }

  /** One turn of the projection loop: the segment `heaps[k]` is projected and its table is
      put at the head of the list. */
  method ProjectNextSegment(mem: array<Slot>, c: Context, heaps: seq<Segment>, k: nat, index: int, bigintSize: int,
                            projections: seq<Projection>, ghost start: Tally)
    returns (index': int, bigintSize': int, projections': seq<Projection>, next: nat)
    requires k < |heaps| && mem.Length == |start.slots|
    requires Projected(LoopStep(c), heaps, start, k, Tally(mem[..], index, bigintSize), projections)
    modifies mem
    ensures next == k + 1
    ensures Projected(LoopStep(c), heaps, start, next, Tally(mem[..], index', bigintSize'), projections')
  {
    ghost var t := Tally(mem[..], index, bigintSize);
    ProjectedWf(LoopStep(c), heaps, start, k, t, projections);
    var projection;
    projection, index', bigintSize' := ProjectSegment(mem, c, heaps[k], index, bigintSize);
    next := k + 1;
    ProjectedNext(LoopStep(c), heaps, start, k, t, projections, Tally(mem[..], index', bigintSize'), projection, next);
    projections' := [projection] + projections;
  }

  /** The projection loop of fxPrepareHeap and the increment after it. The projections come
      back in list order, the last segment first. */
  method Project(mem: array<Slot>, c: Context, heaps: seq<Segment>, bigintStart: int)
    returns (index: int, projections: seq<Projection>, bigintSize: int)
    requires Wf(mem[..]) && SegmentsOk(heaps, mem.Length)
    modifies mem
    ensures var r := ProjectFold(LoopStep(c), Tally(old(mem[..]), 1, bigintStart), HeapOrder(heaps, mem.Length));
            mem[..] == r.slots && index == r.index + 1 && bigintSize == r.bigintSize
    ensures projections == ProjectionList(old(mem[..]), heaps, 1)
    ensures index == 2 + Span(old(mem[..]), HeapOrder(heaps, mem.Length))
    ensures bigintSize == bigintStart + BigTotal(old(mem[..]), HeapOrder(heaps, mem.Length))
  {
    ghost var start := Tally(mem[..], 1, bigintStart);
    index, bigintSize := 1, bigintStart;
    projections := [];
    LoopStepOk(c);
    ProjectedFirst(LoopStep(c), heaps, start);
    var k: nat := 0;
    while k < |heaps|
      invariant Projected(LoopStep(c), heaps, start, k, Tally(mem[..], index, bigintSize), projections)
    {
      index, bigintSize, projections, k := ProjectNextSegment(mem, c, heaps, k, index, bigintSize, projections, start);
    }
    assert heaps[..|heaps|] == heaps;
    ProjectFoldCounts(LoopStep(c), start, HeapOrder(heaps, mem.Length));
    index := index + 1;
  }
}
