/** The part of fxPrintHeap and fxPrintSlot that decides what goes where in the generated
    heap: the record indexes, the places an array's chunk header and elements take, how slot
    pointers are resolved, and where each BigInt's words go in gxBigIntData. Records are
    abstract; the C initializer text is not modelled. */
module Writer {
  import opened Slots
  import opened Projection
  import opened Resolve

  /** A `next` field as printed: resolved by fxPrintAddress, or the raw value (array
      elements, whose `next` field is not a slot pointer). */
  datatype Link = Resolved(target: Target) | Raw(raw: Ref)

  /** The slot a record was printed from: a slot of a heap segment, or an element in the
      storage of an array. */
  datatype Source = InHeap(slot: nat) | InChunk(slot: nat)

  /** The value a slot record holds, where the linker computes it: the storage of an array
      (gxHeap[index] onward), a BigInt's words (gxBigIntData[offset] onward), a resolved
      slot pointer (reference, closure, instance prototype), or the payload as it is. */
  datatype Payload =
    | Storage(index: int, length: int)
    | BigIntWords(offset: int, size: nat, sign: int)
    | Points(target: Target)
    | Copied(kind: Kind)

  /** One element of the generated gxHeap array, with the index the writer prints before
      it: the heap header that points past the last record, a slot, the fake chunk header
      before an array's elements, and the closing record. */
  datatype Record =
    | HeapHeader(index: int, limit: int)
    | SlotRecord(index: int, from: Source, next: Link, id: PrintedId, flag: set<Flag>, payload: Payload)
    | ChunkHeader(index: int, size: nat)
    | HeapEnd(index: int)

  /** The writer's state: the records so far, the next index, the BigInt total
      (linker->bigintSize) and the words copied to gxBigIntData so far. */
  datatype Pen = Pen(records: seq<Record>, index: int, bigintSize: int, words: seq<int>)

  /** Every record's index is its position in the array. */
  predicate Numbered(records: seq<Record>) {
    forall i :: 0 <= i < |records| ==> records[i].index == i
  }

  predicate PenOk(pen: Pen) {
    pen.index == |pen.records| && Numbered(pen.records)
  }

  predicate SlotsOk(s: seq<Slot>) {
    forall i :: 0 <= i < |s| ==> SlotOk(|s|, s[i])
  }

  /** A record printed from a heap slot sits where pointers to that slot lead. */
  predicate RecordAgrees(ps: seq<Projection>, r: Record)
    requires ProjectionsOk(ps)
  {
    r.SlotRecord? && r.from.InHeap? ==> Address(ps, Ptr(r.from.slot)) == Index(r.index)
  }

  predicate Agrees(ps: seq<Projection>, records: seq<Record>)
    requires ProjectionsOk(ps)
  {
    forall i :: 0 <= i < |records| ==> RecordAgrees(ps, records[i])
  }

  /** The records appended after `n` come from array elements and chunk headers only. */
  predicate NoHeapAfter(records: seq<Record>, n: nat) {
    forall i :: n <= i < |records| ==> !(records[i].SlotRecord? && records[i].from.InHeap?)
  }

  /** fxPrintSlot. A slot carrying the debug flag prints its `next` raw, and that flag is
      dropped from the printed flags; the mark flag is added, and so is the no-marshall flag
      for an instance. A BigInt is given the current BigInt total as its offset, and its
      words are copied there. */
  function PrintSlot(ps: seq<Projection>, pen: Pen, from: Source, x: Slot): (r: Pen)
    requires ProjectionsOk(ps)
    ensures r.index == pen.index + 1 && |r.records| == |pen.records| + 1
    ensures r.records[..|pen.records|] == pen.records && r.records[|pen.records|].SlotRecord?
    ensures r.records[|pen.records|].index == pen.index && r.records[|pen.records|].from == from
    ensures PenOk(pen) ==> PenOk(r)
  {
    var next := if Debug in x.flag then Raw(x.next) else Resolved(Address(ps, x.next));
    var flag := x.flag - {Debug} + {Mark} + (if x.kind.Instance? then {DontMarshall} else {});
    var (payload, size, words) :=
      match x.kind
      case BigInt(z, sign, data) => (BigIntWords(pen.bigintSize, z, sign), z, data)
      case BigIntX(z, sign, data) => (BigIntWords(pen.bigintSize, z, sign), z, data)
      case Reference(target) => (Points(Address(ps, target)), 0, [])
      case Closure(closure) => (Points(Address(ps, closure)), 0, [])
      case Instance(prototype) => (Points(Address(ps, prototype)), 0, [])
      case _ => (Copied(x.kind), 0, []);
    var record := SlotRecord(pen.index, from, next, PrintID(x.id), flag, payload);
    Pen(pen.records + [record], pen.index + 1, pen.bigintSize + size, pen.words + words)
  }

  /** The record fxPrintSlot appends. Its link is printed raw exactly when the slot carries
      the debug flag, and it is resolved otherwise. Its id is printed as the slot's id. It
      always has the mark flag, never the debug flag, the no-marshall flag for an instance,
      and every other flag as the slot has it. References, closures and instances point at
      the resolved address. A BigInt points at the running total of BigInt words, which grows
      by its size; its words are appended there. Any other kind is copied as it is and leaves
      the words alone. */
  lemma PrintSlotRecord(ps: seq<Projection>, pen: Pen, from: Source, x: Slot)
    requires ProjectionsOk(ps)
    ensures var r := PrintSlot(ps, pen, from, x);
            var rec := r.records[|pen.records|];
            // the link: raw exactly for a debug slot, resolved otherwise
            && (rec.next.Raw? <==> Debug in x.flag)
            && (rec.next.Raw? ==> rec.next.raw == x.next)
            && (rec.next.Resolved? ==> rec.next.target == Address(ps, x.next))
            && rec.id == PrintID(x.id)
            // the flags: marked, never debug, no-marshall for instances, the rest kept
            && Mark in rec.flag && Debug !in rec.flag
            && (DontMarshall in rec.flag <==> DontMarshall in x.flag || x.kind.Instance?)
            && (forall f :: f != Mark && f != Debug && f != DontMarshall ==> (f in rec.flag <==> f in x.flag))
            // the payload: slot pointers resolved, a BigInt's words appended at the running total
            && (x.kind.Reference? ==> rec.payload == Points(Address(ps, x.kind.target)))
            && (x.kind.Closure? ==> rec.payload == Points(Address(ps, x.kind.closure)))
            && (x.kind.Instance? ==> rec.payload == Points(Address(ps, x.kind.prototype)))
            && if x.kind.BigInt? || x.kind.BigIntX? then
                 && rec.payload == BigIntWords(pen.bigintSize, x.kind.size, x.kind.sign)
                 && r.bigintSize == pen.bigintSize + x.kind.size && r.words == pen.words + x.kind.data
               else
                 && r.bigintSize == pen.bigintSize && r.words == pen.words
                 && (!x.kind.Reference? && !x.kind.Closure? && !x.kind.Instance? ==> rec.payload == Copied(x.kind))
  {
  }

  /** An array element is printed with the debug flag set, so its `next` comes out raw. */
  function Debugged(x: Slot): Slot {
    x.(flag := x.flag + {Debug})
  }

  /** The elements base .. base+n-1 of an array, one record each. */
  function PrintElements(ps: seq<Projection>, s: seq<Slot>, pen: Pen, base: nat, n: nat): (r: Pen)
    requires ProjectionsOk(ps) && base + n <= |s|
    ensures r.index == pen.index + n && |r.records| == |pen.records| + n
    ensures r.records[..|pen.records|] == pen.records && NoHeapAfter(r.records, |pen.records|)
    ensures PenOk(pen) ==> PenOk(r)
    decreases n
  {
    if n == 0 then pen
    else
      var before := PrintElements(ps, s, pen, base, n - 1);
      var r := PrintSlot(ps, before, InChunk(base + n - 1), Debugged(s[base + n - 1]));
      assert r.records[..|pen.records|] == before.records[..|pen.records|];
      r
  }

  /** Record `at + j` of `records` is element j of the storage starting at slot `base`: it
      carries index `index + j`, comes from slot base + j, has its `next` printed raw and its
      id printed as the element's id. */
  predicate ElementPrinted(records: seq<Record>, at: nat, index: int, s: seq<Slot>, base: nat, j: nat) {
    && at + j < |records| && base + j < |s|
    && var rec := records[at + j];
       && rec.SlotRecord? && rec.index == index + j && rec.from == InChunk(base + j)
       && rec.next == Raw(s[base + j].next) && rec.id == PrintID(s[base + j].id)
  }

  /** Records `at` .. `at + n - 1` are the n elements from slot `base`, in storage order. */
  predicate ElementsPrinted(records: seq<Record>, at: nat, index: int, s: seq<Slot>, base: nat, n: nat) {
    forall j :: 0 <= j < n ==> ElementPrinted(records, at, index, s, base, j)
  }

  /** The elements are printed in storage order, one record each. */
  lemma {:induction false} PrintElementsOrder(ps: seq<Projection>, s: seq<Slot>, pen: Pen, base: nat, n: nat)
    requires ProjectionsOk(ps) && base + n <= |s|
    ensures ElementsPrinted(PrintElements(ps, s, pen, base, n).records, |pen.records|, pen.index, s, base, n)
    decreases n
  {
    if n > 0 {
      var before := PrintElements(ps, s, pen, base, n - 1);
      PrintElementsOrder(ps, s, pen, base, n - 1);
      PrintSlotRecord(ps, before, InChunk(base + n - 1), Debugged(s[base + n - 1]));
      var r := PrintElements(ps, s, pen, base, n);
      forall j | 0 <= j < n ensures ElementPrinted(r.records, |pen.records|, pen.index, s, base, j) {
        if j < n - 1 {
          assert r.records[..|before.records|] == before.records;
          assert r.records[|pen.records| + j] == before.records[|pen.records| + j];
          assert ElementPrinted(before.records, |pen.records|, pen.index, s, base, j);
        } else {
          assert r.records[|pen.records| + j] == r.records[|before.records|];
        }
      }
    }
  }

  /** An array with element storage: its own record at index i, whose storage is printed
      as gxHeap[i + 2], the fake chunk header at i + 1 giving the element count, and the
      elements from i + 2 on. */
  function PrintArray(ps: seq<Projection>, s: seq<Slot>, pen: Pen, a: nat): (r: Pen)
    requires ProjectionsOk(ps) && a < |s| && SlotOk(|s|, s[a])
    requires Mark !in s[a].flag && s[a].kind.Array? && s[a].kind.address.Ptr?
    ensures r.index == pen.index + Width(s[a]) && |r.records| == |pen.records| + Width(s[a])
    ensures r.records[..|pen.records|] == pen.records && NoHeapAfter(r.records, |pen.records| + 1)
    ensures r.records[|pen.records|].SlotRecord? && r.records[|pen.records|].from == InHeap(a)
    ensures r.records[|pen.records|].index == pen.index
    ensures r.records[|pen.records|].payload == Storage(pen.index + 2, s[a].kind.length)
    ensures r.records[|pen.records| + 1] == ChunkHeader(pen.index + 1, s[a].kind.count)
    ensures r.records[|pen.records|].next == Resolved(Address(ps, s[a].next))
    ensures r.records[|pen.records|].id == PrintID(s[a].id)
    ensures r.records[|pen.records|].flag == s[a].flag + {Mark}
    ensures PenOk(pen) ==> PenOk(r)
  {
    var x := s[a];
    var head := SlotRecord(pen.index, InHeap(a), Resolved(Address(ps, x.next)), PrintID(x.id), x.flag + {Mark},
                           Storage(pen.index + 2, x.kind.length));
    var chunk := ChunkHeader(pen.index + 1, x.kind.count);
    var started := Pen(pen.records + [head, chunk], pen.index + 2, pen.bigintSize, pen.words);
    var r := PrintElements(ps, s, started, x.kind.address.at, x.kind.count);
    assert r.records[..|pen.records|] == started.records[..|pen.records|];
    assert r.records[|pen.records|] == started.records[|pen.records|];
    assert r.records[|pen.records| + 1] == started.records[|pen.records| + 1];
    r
  }

  /** The records after the chunk header are the array's elements in storage order: record
      i + 2 + j comes from element j, with its `next` printed raw. */
  lemma PrintArrayElements(ps: seq<Projection>, s: seq<Slot>, pen: Pen, a: nat)
    requires ProjectionsOk(ps) && a < |s| && SlotOk(|s|, s[a])
    requires Mark !in s[a].flag && s[a].kind.Array? && s[a].kind.address.Ptr?
    ensures ElementsPrinted(PrintArray(ps, s, pen, a).records, |pen.records| + 2, pen.index + 2,
                            s, s[a].kind.address.at, s[a].kind.count)
  {
    var x := s[a];
    var head := SlotRecord(pen.index, InHeap(a), Resolved(Address(ps, x.next)), PrintID(x.id), x.flag + {Mark},
                           Storage(pen.index + 2, x.kind.length));
    var started := Pen(pen.records + [head, ChunkHeader(pen.index + 1, x.kind.count)], pen.index + 2, pen.bigintSize, pen.words);
    PrintElementsOrder(ps, s, started, x.kind.address.at, x.kind.count);
  }

  /** One slot of the writer's loop: nothing for a free slot, an array with its storage,
      or the slot alone. */
  function PrintVisit(ps: seq<Projection>, s: seq<Slot>, pen: Pen, a: nat): (r: Pen)
    requires ProjectionsOk(ps) && SlotsOk(s) && a < |s|
    ensures r.index == pen.index + Width(s[a]) && |r.records| == |pen.records| + Width(s[a])
    ensures r.records[..|pen.records|] == pen.records && NoHeapAfter(r.records, |pen.records| + 1)
    ensures Width(s[a]) > 0 ==>
              && r.records[|pen.records|].SlotRecord? && r.records[|pen.records|].from == InHeap(a)
              && r.records[|pen.records|].index == pen.index
    ensures PenOk(pen) ==> PenOk(r)
  {
    var x := s[a];
    assert SlotOk(|s|, x);
    if Mark in x.flag then pen
    else if x.kind.Array? && x.kind.address.Ptr? then PrintArray(ps, s, pen, a)
    else PrintSlot(ps, pen, InHeap(a), x)
  }

  /** The slots lo .. hi-1 of a segment, in position order: the record indexes advance by exactly
      the indexes the projection gave those slots. */
  function PrintRun(ps: seq<Projection>, s: seq<Slot>, pen: Pen, lo: nat, hi: nat): (r: Pen)
    requires ProjectionsOk(ps) && SlotsOk(s) && hi <= |s|
    ensures r.index == pen.index + RunWidth(s, lo, hi) && |r.records| == |pen.records| + RunWidth(s, lo, hi)
    ensures r.records[..|pen.records|] == pen.records
    ensures PenOk(pen) ==> PenOk(r)
    decreases hi
  {
    if hi <= lo then pen
    else
      var before := PrintRun(ps, s, pen, lo, hi - 1);
      var r := PrintVisit(ps, s, before, hi - 1);
      assert r.records[..|pen.records|] == before.records[..|pen.records|];
      r
  }

  /** The segments lie in the arena. */
  predicate InArena(order: seq<Projection>, n: nat) {
    forall q :: 0 <= q < |order| ==> order[q].heap < order[q].limit <= n
  }

  /** The first n segments of `order`, one after the other. */
  function PrintSegments(ps: seq<Projection>, s: seq<Slot>, pen: Pen, order: seq<Projection>, n: nat): (r: Pen)
    requires ProjectionsOk(ps) && SlotsOk(s) && InArena(order, |s|) && n <= |order|
    ensures |pen.records| <= |r.records| && r.records[..|pen.records|] == pen.records
    ensures PenOk(pen) ==> PenOk(r)
    decreases n
  {
    if n == 0 then pen
    else
      var before := PrintSegments(ps, s, pen, order, n - 1);
      var r := PrintRun(ps, s, before, order[n - 1].heap + 1, order[n - 1].limit);
      assert r.records[..|pen.records|] == before.records[..|pen.records|];
      r
  }

  /** The generated heap when the segments are walked in the order `order`: the header
      pointing at gxHeap[count], the slots, and the closing record. */
  function PrintHeapIn(ps: seq<Projection>, s: seq<Slot>, count: int, bigintStart: int, order: seq<Projection>): (r: Pen)
    requires ProjectionsOk(ps) && SlotsOk(s) && InArena(order, |s|)
    ensures PenOk(r) && |r.records| >= 2 && r.records[0] == HeapHeader(0, count) && r.records[|r.records| - 1] == HeapEnd(|r.records| - 1)
  {
    var body := PrintSegments(ps, s, Pen([HeapHeader(0, count)], 1, bigintStart, []), order, |order|);
    Pen(body.records + [HeapEnd(body.index)], body.index + 1, body.bigintSize, body.words)
  }

  /** The projection list backwards: the segments in the order the projection loop numbered
      them. */
  function Reversed(ps: seq<Projection>): (r: seq<Projection>)
    ensures |r| == |ps| && forall q :: 0 <= q < |ps| ==> r[q] == ps[|ps| - 1 - q]
  {
    if ps == [] then [] else Reversed(ps[1..]) + [ps[0]]
  }

  /** fxPrintHeap as written: the segments in the order of the projection list, which puts
      the segment numbered last first. */
  function PrintedHeapAsWritten(ps: seq<Projection>, s: seq<Slot>, count: int, bigintStart: int): (r: Pen)
    requires ProjectionsOk(ps) && SlotsOk(s) && InArena(ps, |s|)
    ensures PenOk(r) && |r.records| >= 2 && r.records[0] == HeapHeader(0, count)
  {
    PrintHeapIn(ps, s, count, bigintStart, ps)
  }

  /** fxPrintHeap with the segments in the order the projection loop numbered them: the
      projection list from its tail. */
  function PrintedHeap(ps: seq<Projection>, s: seq<Slot>, count: int, bigintStart: int): (r: Pen)
    requires ProjectionsOk(ps) && SlotsOk(s) && InArena(ps, |s|)
    ensures PenOk(r) && |r.records| >= 2 && r.records[0] == HeapHeader(0, count)
  {
    PrintHeapIn(ps, s, count, bigintStart, Reversed(ps))
  }

  /** Pointers to the live slots strictly between `lo` and `hi` print the indexes of a
      numbering that gives the first of them `base` and advances by what each slot takes. */
  ghost predicate RunNumbered(ps: seq<Projection>, s: seq<Slot>, lo: nat, hi: nat, base: int)
    requires ProjectionsOk(ps) && hi <= |s|
  {
    forall a :: lo < a < hi && Mark !in s[a].flag ==> Address(ps, Ptr(a)) == Index(base + RunWidth(s, lo + 1, a))
  }

  /** The heap printed with `count` in its header holds exactly `count` records, so the
      header points just past the last one, and every record printed for a heap slot sits at
      the index fxPrintAddress prints for that slot. */
  ghost predicate HeapLinked(ps: seq<Projection>, s: seq<Slot>, count: int, bigintStart: int)
    requires ProjectionsOk(ps) && SlotsOk(s) && InArena(ps, |s|)
  {
    var records := PrintedHeap(ps, s, count, bigintStart).records;
    && |records| == count && records[0] == HeapHeader(0, count)
    && forall i :: 0 <= i < |records| && records[i].SlotRecord? && records[i].from.InHeap? ==>
         Address(ps, Ptr(records[i].from.slot)) == Index(i)
  }

  /** A BigInt record points at its own words: from its offset in gxBigIntData on, the
      words of the slot it was printed from. */
  ghost predicate Placed(s: seq<Slot>, r: Record, words: seq<int>, start: int) {
    r.SlotRecord? && r.payload.BigIntWords? ==>
      var o := r.payload.offset - start;
      && r.from.slot < |s| && (s[r.from.slot].kind.BigInt? || s[r.from.slot].kind.BigIntX?)
      && 0 <= o && o + r.payload.size <= |words| && words[o..o + r.payload.size] == s[r.from.slot].kind.data
  }

  /** The BigInt total has moved past exactly the words copied since `start`, and every
      BigInt record printed so far points at its own words. */
  ghost predicate WordsPlaced(s: seq<Slot>, pen: Pen, start: int) {
    && pen.bigintSize == start + |pen.words|
    && forall i :: 0 <= i < |pen.records| ==> Placed(s, pen.records[i], pen.words, start)
  }

  /** The record after the header of the heap as written is printed from slot `a`. */
  predicate FirstPrintedAsWritten(ps: seq<Projection>, s: seq<Slot>, count: int, bigintStart: int, a: nat)
    requires ProjectionsOk(ps) && SlotsOk(s) && InArena(ps, |s|)
  {
    var records := PrintedHeapAsWritten(ps, s, count, bigintStart).records;
    records[1].SlotRecord? && records[1].from == InHeap(a)
  }
}
