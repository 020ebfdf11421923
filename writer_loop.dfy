/** The loops of fxPrintHeap over the arena, proved against the functions of the Writer
    module: segments in the order given, the slots of each segment, the elements of each
    array. */
module WriterLoop {
  import opened Slots
  import opened Projection
  import opened Resolve
  import opened Writer

  /** The element loop: one slot record per element, each printed with the debug flag. */
  method PrintElementsLoop(mem: array<Slot>, ps: seq<Projection>, pen: Pen, base: nat, count: nat) returns (r: Pen)
    requires ProjectionsOk(ps) && base + count <= mem.Length
    ensures r == PrintElements(ps, mem[..], pen, base, count)
  {
    ghost var s := mem[..];
    r := pen;
    var item := base;
    var size := count;
    while size > 0
      invariant item == base + count - size && 0 <= size <= count
      invariant r == PrintElements(ps, s, pen, base, item - base)
    {
      r := PrintSlot(ps, r, InChunk(item), Debugged(mem[item]));
      item := item + 1;
      size := size - 1;
    }
  }

  /** One live or free slot: an array with element storage gets its own record, the fake
      chunk header and its elements; any other live slot one record. */
  method PrintVisitStep(mem: array<Slot>, ps: seq<Projection>, pen: Pen, a: nat) returns (r: Pen)
    requires ProjectionsOk(ps) && SlotsOk(mem[..]) && a < mem.Length
    ensures r == PrintVisit(ps, mem[..], pen, a)
  {
    var x := mem[a];
    assert SlotOk(mem.Length, mem[..][a]);
    if Mark in x.flag {
      r := pen;
    } else if x.kind.Array? && x.kind.address.Ptr? {
      var head := SlotRecord(pen.index, InHeap(a), Resolved(Address(ps, x.next)), PrintID(x.id), x.flag + {Mark},
                             Storage(pen.index + 2, x.kind.length));
      var chunk := ChunkHeader(pen.index + 1, x.kind.count);
      var started := Pen(pen.records + [head, chunk], pen.index + 2, pen.bigintSize, pen.words);
      r := PrintElementsLoop(mem, ps, started, x.kind.address.at, x.kind.count);
    } else {
      r := PrintSlot(ps, pen, InHeap(a), x);
    }
  }

  /** The slot loop of one segment, from the slot after its header to its limit. */
  method PrintSegmentLoop(mem: array<Slot>, ps: seq<Projection>, pen: Pen, heap: nat, limit: nat) returns (r: Pen)
    requires ProjectionsOk(ps) && SlotsOk(mem[..]) && heap < limit <= mem.Length
    ensures r == PrintRun(ps, mem[..], pen, heap + 1, limit)
  {
    ghost var s := mem[..];
    r := pen;
    var slot := heap + 1;
    while slot < limit
      invariant heap + 1 <= slot <= limit
      invariant r == PrintRun(ps, s, pen, heap + 1, slot)
    {
      r := PrintVisitStep(mem, ps, r, slot);
      slot := slot + 1;
    }
  }

  /** The segment loop of fxPrintHeap: the segments in the order given. */
  method PrintSegmentsLoop(mem: array<Slot>, ps: seq<Projection>, pen: Pen, order: seq<Projection>) returns (r: Pen)
    requires ProjectionsOk(ps) && SlotsOk(mem[..]) && InArena(order, mem.Length)
    ensures r == PrintSegments(ps, mem[..], pen, order, |order|)
  {
    ghost var s := mem[..];
    r := pen;
    var q := 0;
    while q < |order|
      invariant q <= |order|
      invariant r == PrintSegments(ps, s, pen, order, q)
    {
      r := PrintSegmentLoop(mem, ps, r, order[q].heap, order[q].limit);
      q := q + 1;
    }
  }

  /** fxPrintHeap: the header pointing at gxHeap[count], the segments in the order given,
      and the closing record. Called with the projection list it is the writer as written;
      with the list backwards, the corrected one. */
  method PrintHeap(mem: array<Slot>, ps: seq<Projection>, order: seq<Projection>, count: int, bigintStart: int) returns (r: Pen)
    requires ProjectionsOk(ps) && SlotsOk(mem[..]) && InArena(order, mem.Length)
    ensures r == PrintHeapIn(ps, mem[..], count, bigintStart, order)
  {
    var body := PrintSegmentsLoop(mem, ps, Pen([HeapHeader(0, count)], 1, bigintStart, []), order);
    r := Pen(body.records + [HeapEnd(body.index)], body.index + 1, body.bigintSize, body.words);
  }
}
