/** fxPrepareHeap as a whole: the home de-duplication, the marking of the free list, the
    projection loop and the alias passes, one after the other on the same arena. The writer
    later prints that arena through the projection list the projection loop built; the
    lemmas here show that the list is the one the printed arena itself determines. */
module PrepareHeap {
  import opened Slots
  import opened Homes
  import opened Reachability
  import opened Prepare
  import opened Projection
  import opened ProjectionLoop
  import opened Aliases
  import opened AliasLoop
  import opened Writer
  import opened WriterOrder
  import opened Resolve

  /** What fxPrepareHeap leaves behind: the arena, the count it returns, the projection
      list, the BigInt total and `aliasCount`. */
  datatype Outcome = Outcome(slots: seq<Slot>, count: int, projections: seq<Projection>, bigintSize: int, aliasCount: nat)

  /** The arena after the home pass and the marking of the free list starting at `freeHeap`. */
  ghost function Marked(s: seq<Slot>, heaps: seq<Segment>, freeHeap: Ref): (r: seq<Slot>)
    requires Wf(s) && SegmentsOk(heaps, |s|) && ValidRef(|s|, freeHeap)
    ensures Wf(r) && |r| == |s|
  {
    var homed := HomeFold(s, HeapOrder(heaps, |s|)).slots;
    HomeFoldWf(s, HeapOrder(heaps, |s|));
    FreeListEnds(homed, freeHeap);
    MarkAllWf(homed, Walk(homed, freeHeap));
    MarkAll(homed, Walk(homed, freeHeap))
  }

  lemma FreeListEnds(s: seq<Slot>, freeHeap: Ref)
    requires Wf(s) && ValidRef(|s|, freeHeap)
    ensures Ends(s, freeHeap)
  {
    if freeHeap.Null? {
      WalkNull(s);
    } else {
      assert Ends(s, Ptr(freeHeap.at));
    }
  }

  /** The passes of fxPrepareHeap, in order, from the arena `s`. */
  ghost function PrepareHeapSpec(c: Context, s: seq<Slot>, heaps: seq<Segment>, freeHeap: Ref, global: nat,
                                 bigintStart: int): (r: Outcome)
    requires Wf(s) && SegmentsOk(heaps, |s|) && ValidRef(|s|, freeHeap) && global < |s|
    ensures Wf(r.slots) && |r.slots| == |s|
  {
    var marked := Marked(s, heaps, freeHeap);
    var t := ProjectFold(LoopStep(c), Tally(marked, 1, bigintStart), HeapOrder(heaps, |s|));
    LoopStepOk(c);
    ProjectFoldCounts(LoopStep(c), Tally(marked, 1, bigintStart), HeapOrder(heaps, |s|));
    var a := Aliasing(t.slots, heaps, global);
    SameShapeWf(t.slots, a.slots);
    Outcome(a.slots, t.index + 1, ProjectionList(marked, heaps, 1), t.bigintSize, a.count)
  }

  /** The projection list fxPrepareHeap builds is the list of the arena it leaves behind, and
      the count it returns is what that arena's live slots take plus the header and the end.
      The alias passes run after the projection loop, but they change no link, kind or mark,
      so the numbering still holds for the arena the writer prints. */
  lemma PreparedProjections(c: Context, s: seq<Slot>, heaps: seq<Segment>, freeHeap: Ref, global: nat, bigintStart: int)
    requires Wf(s) && SegmentsOk(heaps, |s|) && ValidRef(|s|, freeHeap) && global < |s|
    ensures var r := PrepareHeapSpec(c, s, heaps, freeHeap, global, bigintStart);
            && r.projections == ProjectionList(r.slots, heaps, 1)
            && r.count == 2 + Span(r.slots, HeapOrder(heaps, |s|))
  {
    var marked := Marked(s, heaps, freeHeap);
    var xs := HeapOrder(heaps, |s|);
    var t := ProjectFold(LoopStep(c), Tally(marked, 1, bigintStart), xs);
    LoopStepOk(c);
    ProjectFoldCounts(LoopStep(c), Tally(marked, 1, bigintStart), xs);
    GrowsSameMarks(marked, t.slots);
    AliasingMarks(t.slots, heaps, global);
    var a := Aliasing(t.slots, heaps, global).slots;
    assert SameMarks(marked, a) by {
      assert forall i :: 0 <= i < |marked| ==> (Mark in marked[i].flag <==> Mark in t.slots[i].flag);
    }
    MarksProjectionList(marked, a, heaps, 1);
    MarksSpan(marked, a, xs);
  }

  /** The generated heap for the arena fxPrepareHeap leaves behind, walked in numbering order:
      every slot record sits where fxPrintAddress sends pointers to its slot, through the
      projection list fxPrepareHeap built, and the header points past the last record. */
  lemma PreparedHeapPrints(c: Context, s: seq<Slot>, heaps: seq<Segment>, freeHeap: Ref, global: nat,
                           bigintStart: int, printStart: int)
    requires Wf(s) && SegmentsOk(heaps, |s|) && ValidRef(|s|, freeHeap) && global < |s|
    ensures var r := PrepareHeapSpec(c, s, heaps, freeHeap, global, bigintStart);
            && ProjectionsOk(r.projections) && InArena(r.projections, |r.slots|)
            && HeapLinked(r.projections, r.slots, r.count, printStart)
  {
    var r := PrepareHeapSpec(c, s, heaps, freeHeap, global, bigintStart);
    PreparedProjections(c, s, heaps, freeHeap, global, bigintStart);
    var t := r.slots;
    assert |t| == |s|;
    WfSlotsOk(t);
    PrintedHeapAgrees(t, heaps, printStart);
    assert r.projections == ProjectionList(t, heaps, 1);
    assert r.count == 2 + Span(t, HeapOrder(heaps, |t|));
  }

  lemma WfSlotsOk(s: seq<Slot>)
    requires Wf(s)
    ensures SlotsOk(s)
  {
    forall i | 0 <= i < |s| ensures SlotOk(|s|, s[i]) {
      assert SlotOk(|s|, s[i]);
    }
  }

  /** fxPrepareHeap: the four passes on the arena in place. The free list starts at
      `freeHeap`, the global object is at `global`. */
  method PrepareHeapM(mem: array<Slot>, c: Context, heaps: seq<Segment>, freeHeap: Ref, global: nat, bigintStart: int)
    returns (count: int, projections: seq<Projection>, bigintSize: int, aliasCount: nat)
    requires Wf(mem[..]) && SegmentsOk(heaps, mem.Length) && ValidRef(mem.Length, freeHeap) && global < mem.Length
    modifies mem
    ensures Outcome(mem[..], count, projections, bigintSize, aliasCount) ==
              PrepareHeapSpec(c, old(mem[..]), heaps, freeHeap, global, bigintStart)
  {
    ghost var s0 := mem[..];
    MergeHomes(mem, heaps);
    HomeFoldWf(s0, HeapOrder(heaps, |s0|));
    FreeListEnds(mem[..], freeHeap);
    MarkFreeList(mem, freeHeap);
    assert mem[..] == Marked(s0, heaps, freeHeap);
    var index;
    index, projections, bigintSize := Project(mem, c, heaps, bigintStart);
    ghost var marked := Marked(s0, heaps, freeHeap);
    LoopStepOk(c);
    ProjectFoldCounts(LoopStep(c), Tally(marked, 1, bigintStart), HeapOrder(heaps, mem.Length));
    count := index;
    aliasCount := Alias(mem, heaps, global);
  }
}
