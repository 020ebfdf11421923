/** Whether the generated heap puts every slot where the pointers to it lead: the index a
    record gets from the writer against the index fxPrintAddress prints for its slot. */
module WriterOrder {
  import opened Slots
  import opened Projection
  import opened Resolve
  import opened Writer

  /** Pointers to the live slots strictly between `lo` and `hi` print the indexes of a
      numbering that gives the first of them `base` and advances by what each slot takes. */
  ghost predicate Numbers(ps: seq<Projection>, s: seq<Slot>, lo: nat, hi: nat, base: int)
    requires ProjectionsOk(ps) && hi <= |s|
    decreases hi
  {
    hi <= lo + 1 ||
    (Numbers(ps, s, lo, hi - 1, base) &&
     (Mark in s[hi - 1].flag || Address(ps, Ptr(hi - 1)) == Index(base + RunWidth(s, lo + 1, hi - 1))))
  }

  /** What the slots of the first k segments of `order` take. */
  function OrderSpan(s: seq<Slot>, order: seq<Projection>, k: nat): nat
    requires InArena(order, |s|) && k <= |order|
  {
    if k == 0 then 0 else OrderSpan(s, order, k - 1) + RunWidth(s, order[k - 1].heap + 1, order[k - 1].limit)
  }

  /** Each of the first k segments of `order` is numbered from `base` plus what the
      segments before it take. */
  ghost predicate AllNumbered(ps: seq<Projection>, s: seq<Slot>, order: seq<Projection>, base: int, k: nat)
    requires ProjectionsOk(ps) && InArena(order, |s|) && k <= |order|
  {
    k == 0 ||
    (AllNumbered(ps, s, order, base, k - 1) &&
     Numbers(ps, s, order[k - 1].heap, order[k - 1].limit, base + OrderSpan(s, order, k - 1)))
  }

  // ------------------------------------------------------------------ the projection side

  /** The projections of the segments lie in the arena, the list holding the projection of
      segment k at |heaps| - 1 - k. */
  lemma {:induction false} ProjectionListInArena(s: seq<Slot>, heaps: seq<Segment>, start: int)
    requires SegmentsOk(heaps, |s|)
    ensures ProjectionsOk(ProjectionList(s, heaps, start)) && InArena(ProjectionList(s, heaps, start), |s|)
    ensures var ps := ProjectionList(s, heaps, start);
            forall k :: 0 <= k < |heaps| ==>
              ps[|heaps| - 1 - k].heap == heaps[k].heap && ps[|heaps| - 1 - k].limit == heaps[k].limit
  {
    ProjectionListOk(s, heaps, start);
    var ps := ProjectionList(s, heaps, start);
    forall k | 0 <= k < |heaps|
      ensures ps[|heaps| - 1 - k].heap == heaps[k].heap && ps[|heaps| - 1 - k].limit == heaps[k].limit
    {
      assert ps[|heaps| - 1 - k] == SegmentProjection(s, heaps, k, start);
    }
    forall q | 0 <= q < |ps| ensures ps[q].heap < ps[q].limit <= |s| {
      var k := |heaps| - 1 - q;
      assert ps[|heaps| - 1 - k] == SegmentProjection(s, heaps, k, start);
    }
  }

  /** Walking a list that holds segment k at |heaps| - 1 - k from its tail visits the
      segments in order. */
  lemma {:induction false} ReversedFollows(ps: seq<Projection>, heaps: seq<Segment>, n: nat)
    requires InArena(ps, n) && |ps| == |heaps|
    requires forall k :: 0 <= k < |heaps| ==>
               ps[|heaps| - 1 - k].heap == heaps[k].heap && ps[|heaps| - 1 - k].limit == heaps[k].limit
    ensures InArena(Reversed(ps), n)
    ensures var order := Reversed(ps);
            forall k :: 0 <= k < |heaps| ==> order[k].heap == heaps[k].heap && order[k].limit == heaps[k].limit
  {
  }

  /** Walking segments in the order of the segment list, the slots of the first k segments
      take what the slots at the first k segments' addresses take. */
  lemma {:induction false} OrderSpanAddresses(s: seq<Slot>, heaps: seq<Segment>, order: seq<Projection>, k: nat)
    requires SegmentsOk(heaps, |s|) && InArena(order, |s|) && k <= |heaps| == |order|
    requires forall l :: 0 <= l < |heaps| ==> order[l].heap == heaps[l].heap && order[l].limit == heaps[l].limit
    ensures AllBelow(Addresses(heaps[..k]), |s|)
    ensures OrderSpan(s, order, k) == Span(s, Addresses(heaps[..k]))
    decreases k
  {
    if k == 0 {
      assert heaps[..0] == [];
    } else {
      OrderSpanAddresses(s, heaps, order, k - 1);
      OrderSpanNext(s, heaps, order, k - 1, Addresses(heaps[..k - 1]));
    }
  }

  /** One more segment adds what its slots take on both sides. */
  lemma {:induction false} OrderSpanNext(s: seq<Slot>, heaps: seq<Segment>, order: seq<Projection>, k: nat, before: seq<nat>)
    requires SegmentsOk(heaps, |s|) && InArena(order, |s|) && k < |heaps| == |order|
    requires order[k].heap == heaps[k].heap && order[k].limit == heaps[k].limit
    requires before == Addresses(heaps[..k]) && AllBelow(before, |s|)
    requires OrderSpan(s, order, k) == Span(s, before)
    ensures AllBelow(Addresses(heaps[..k + 1]), |s|)
    ensures OrderSpan(s, order, k + 1) == Span(s, Addresses(heaps[..k + 1]))
  {
    var lo, hi := heaps[k].heap + 1, heaps[k].limit;
    AddressesNext(heaps, k);
    VisitedSpan(s, before, lo, hi);
  }

  /** A pointer to a live slot of segment k prints one past what the slots visited before it
      take: those of the earlier segments, then those of its own segment below it. */
  lemma {:induction false} AddressAtRun(s: seq<Slot>, heaps: seq<Segment>, k: nat, a: nat)
    requires SegmentsOk(heaps, |s|) && k < |heaps| && heaps[k].heap < a < heaps[k].limit
    requires Mark !in s[a].flag
    ensures ProjectionsOk(ProjectionList(s, heaps, 1)) && AllBelow(Addresses(heaps[..k]), |s|)
    ensures Address(ProjectionList(s, heaps, 1), Ptr(a)) ==
              Index(1 + Span(s, Addresses(heaps[..k])) + RunWidth(s, heaps[k].heap + 1, a))
  {
    var j := a - heaps[k].heap;
    AddressOfSlot(s, heaps, 1, k, j);
    var base := 1 + Span(s, Addresses(heaps[..k]));
    assert SegmentIndexes(s, heaps[k], Addresses(heaps[..k]), 1)[j] == IndexAt(s, heaps[k], base, j);
    assert heaps[k].heap + j == a;
    assert IndexAt(s, heaps[k], base, j) == base + RunWidth(s, heaps[k].heap + 1, a);
  }

  /** A run whose live slots print the indexes of the numbering from `base` is numbered
      from `base` up to any `m` within it. */
  lemma {:induction false} NumbersFrom(ps: seq<Projection>, s: seq<Slot>, lo: nat, m: nat, hi: nat, base: int)
    requires ProjectionsOk(ps) && m <= hi <= |s| && RunNumbered(ps, s, lo, hi, base)
    ensures Numbers(ps, s, lo, m, base)
    decreases m
  {
    if lo + 1 < m {
      NumbersFrom(ps, s, lo, m - 1, hi, base);
    }
  }

  /** Every live slot of segment k prints one past what the slots visited before it take. */
  lemma {:induction false} SegmentAddresses(s: seq<Slot>, heaps: seq<Segment>, k: nat)
    requires SegmentsOk(heaps, |s|) && k < |heaps|
    ensures ProjectionsOk(ProjectionList(s, heaps, 1)) && AllBelow(Addresses(heaps[..k]), |s|)
    ensures RunNumbered(ProjectionList(s, heaps, 1), s, heaps[k].heap, heaps[k].limit, 1 + Span(s, Addresses(heaps[..k])))
  {
    ProjectionListOk(s, heaps, 1);
    assert SegmentsOk(heaps[..k], |s|);
    AddressesBelow(heaps[..k], |s|);
    var ps := ProjectionList(s, heaps, 1);
    var base := 1 + Span(s, Addresses(heaps[..k]));
    var lo := heaps[k].heap;
    forall a | lo < a < heaps[k].limit && Mark !in s[a].flag
      ensures Address(ps, Ptr(a)) == Index(base + RunWidth(s, lo + 1, a))
    {
      AddressAtRun(s, heaps, k, a);
    }
  }

  /** The projection loop numbers the slots of segment k from one past what the segments
      before it take. */
  lemma {:induction false} SegmentNumbers(s: seq<Slot>, heaps: seq<Segment>, k: nat)
    requires SegmentsOk(heaps, |s|) && k < |heaps|
    ensures ProjectionsOk(ProjectionList(s, heaps, 1)) && AllBelow(Addresses(heaps[..k]), |s|)
    ensures Numbers(ProjectionList(s, heaps, 1), s, heaps[k].heap, heaps[k].limit, 1 + Span(s, Addresses(heaps[..k])))
  {
    SegmentAddresses(s, heaps, k);
    NumbersFrom(ProjectionList(s, heaps, 1), s, heaps[k].heap, heaps[k].limit, heaps[k].limit,
                1 + Span(s, Addresses(heaps[..k])));
  }

  /** Walked in the order of the segment list, segment l is numbered from one past what the
      segments walked before it take. */
  lemma {:induction false} OrderNumbers(s: seq<Slot>, heaps: seq<Segment>, order: seq<Projection>, l: nat)
    requires SegmentsOk(heaps, |s|) && InArena(order, |s|) && l < |heaps| == |order|
    requires forall l :: 0 <= l < |heaps| ==> order[l].heap == heaps[l].heap && order[l].limit == heaps[l].limit
    ensures ProjectionsOk(ProjectionList(s, heaps, 1))
    ensures Numbers(ProjectionList(s, heaps, 1), s, order[l].heap, order[l].limit, 1 + OrderSpan(s, order, l))
  {
    SegmentNumbers(s, heaps, l);
    OrderSpanAddresses(s, heaps, order, l);
  }

  /** Walked in the order of the segment list, each segment is numbered from one past what
      the segments walked before it take. */
  lemma {:induction false} HeapNumbered(s: seq<Slot>, heaps: seq<Segment>, order: seq<Projection>, k: nat)
    requires SegmentsOk(heaps, |s|) && InArena(order, |s|) && k <= |heaps| == |order|
    requires forall l :: 0 <= l < |heaps| ==> order[l].heap == heaps[l].heap && order[l].limit == heaps[l].limit
    ensures ProjectionsOk(ProjectionList(s, heaps, 1))
    ensures AllNumbered(ProjectionList(s, heaps, 1), s, order, 1, k)
    decreases k
  {
    var ps := ProjectionList(s, heaps, 1);
    assert ProjectionsOk(ps) by { ProjectionListOk(s, heaps, 1); }
    if k > 0 {
      assert AllNumbered(ps, s, order, 1, k - 1) by { HeapNumbered(s, heaps, order, k - 1); }
      assert Numbers(ps, s, order[k - 1].heap, order[k - 1].limit, 1 + OrderSpan(s, order, k - 1)) by {
        OrderNumbers(s, heaps, order, k - 1);
      }
    }
  }

  // ------------------------------------------------------------------ the writer side

  /** A record printed for a live slot at the index a pointer to that slot prints keeps the
      records agreeing. */
  lemma {:induction false} VisitAgrees(ps: seq<Projection>, s: seq<Slot>, a: nat, pen: Pen)
    requires ProjectionsOk(ps) && SlotsOk(s) && a < |s|
    requires Mark !in s[a].flag ==> Address(ps, Ptr(a)) == Index(pen.index)
    requires Agrees(ps, pen.records)
    ensures Agrees(ps, PrintVisit(ps, s, pen, a).records)
  {
    var r := PrintVisit(ps, s, pen, a);
    var n := |pen.records|;
    forall i | 0 <= i < |r.records| ensures RecordAgrees(ps, r.records[i]) {
      if i < n {
        assert r.records[i] == r.records[..n][i];
      } else if i > n {
        assert NoHeapAfter(r.records, n + 1);
      }
    }
  }

  /** The slots strictly between `lo` and `m`, printed from the index they are numbered
      from, land at their projection's indexes. */
  lemma {:induction false} RunAgrees(ps: seq<Projection>, s: seq<Slot>, lo: nat, m: nat, pen: Pen)
    requires ProjectionsOk(ps) && SlotsOk(s) && lo < m <= |s|
    requires Numbers(ps, s, lo, m, pen.index) && Agrees(ps, pen.records)
    ensures Agrees(ps, PrintRun(ps, s, pen, lo + 1, m).records)
    decreases m
  {
    if lo + 1 < m {
      RunAgrees(ps, s, lo, m - 1, pen);
      VisitAgrees(ps, s, m - 1, PrintRun(ps, s, pen, lo + 1, m - 1));
    }
  }

  /** After the first k segments of `order` the writer's index has moved past what their
      slots take. */
  lemma {:induction false} SegmentsIndex(ps: seq<Projection>, s: seq<Slot>, pen: Pen, order: seq<Projection>, k: nat)
    requires ProjectionsOk(ps) && SlotsOk(s) && InArena(order, |s|) && k <= |order|
    ensures PrintSegments(ps, s, pen, order, k).index == pen.index + OrderSpan(s, order, k)
    decreases k
  {
    if k > 0 {
      SegmentsIndex(ps, s, pen, order, k - 1);
    }
  }

  /** Segment k-1 of `order`, numbered from where the writer's index stands when it reaches
      that segment, lands at its projection's indexes. */
  lemma {:induction false} SegmentAgrees(ps: seq<Projection>, s: seq<Slot>, pen: Pen, order: seq<Projection>, k: nat)
    requires ProjectionsOk(ps) && SlotsOk(s) && InArena(order, |s|) && 0 < k <= |order|
    requires Numbers(ps, s, order[k - 1].heap, order[k - 1].limit, pen.index + OrderSpan(s, order, k - 1))
    requires Agrees(ps, PrintSegments(ps, s, pen, order, k - 1).records)
    ensures Agrees(ps, PrintSegments(ps, s, pen, order, k).records)
  {
    var before := PrintSegments(ps, s, pen, order, k - 1);
    assert before.index == pen.index + OrderSpan(s, order, k - 1) by { SegmentsIndex(ps, s, pen, order, k - 1); }
    assert Agrees(ps, PrintRun(ps, s, before, order[k - 1].heap + 1, order[k - 1].limit).records) by {
      RunAgrees(ps, s, order[k - 1].heap, order[k - 1].limit, before);
    }
  }

  /** When every segment of `order` is numbered from where the writer's index stands when
      it reaches that segment, the first k segments land at their projections' indexes. */
  lemma {:induction false} SegmentsAgree(ps: seq<Projection>, s: seq<Slot>, pen: Pen, order: seq<Projection>, k: nat)
    requires ProjectionsOk(ps) && SlotsOk(s) && InArena(order, |s|) && k <= |order|
    requires AllNumbered(ps, s, order, pen.index, k) && Agrees(ps, pen.records)
    ensures Agrees(ps, PrintSegments(ps, s, pen, order, k).records)
    decreases k
  {
    if k > 0 {
      SegmentsAgree(ps, s, pen, order, k - 1);
      SegmentAgrees(ps, s, pen, order, k);
    }
  }

  /** With the segments numbered as the projection loop numbers them, walking the
      projection list backwards prints every slot record at the index fxPrintAddress prints
      for its slot, and the heap has two records more than its slots take. */
  lemma {:induction false} OrderAgrees(ps: seq<Projection>, s: seq<Slot>, heaps: seq<Segment>, count: int, bigintStart: int)
    requires ProjectionsOk(ps) && SlotsOk(s) && InArena(ps, |s|) && InArena(Reversed(ps), |s|)
    requires SegmentsOk(heaps, |s|) && |heaps| == |ps|
    requires forall l :: 0 <= l < |heaps| ==>
               Reversed(ps)[l].heap == heaps[l].heap && Reversed(ps)[l].limit == heaps[l].limit
    requires AllNumbered(ps, s, Reversed(ps), 1, |ps|)
    requires count == 2 + Span(s, HeapOrder(heaps, |s|))
    ensures HeapLinked(ps, s, count, bigintStart)
  {
    var order := Reversed(ps);
    var start := Pen([HeapHeader(0, count)], 1, bigintStart, []);
    var body := PrintSegments(ps, s, start, order, |order|);
    assert Agrees(ps, body.records) by {
      assert Agrees(ps, start.records);
      SegmentsAgree(ps, s, start, order, |order|);
    }
    assert body.index == 1 + Span(s, HeapOrder(heaps, |s|)) by {
      SegmentsIndex(ps, s, start, order, |order|);
      OrderSpanAddresses(s, heaps, order, |heaps|);
      assert heaps[..|heaps|] == heaps;
    }
    var records := PrintedHeap(ps, s, count, bigintStart).records;
    assert records == body.records + [HeapEnd(body.index)];
    forall i | 0 <= i < |records| && records[i].SlotRecord? && records[i].from.InHeap?
      ensures Address(ps, Ptr(records[i].from.slot)) == Index(i)
    {
      assert records[i] == body.records[i];
      assert RecordAgrees(ps, body.records[i]);
    }
  }

  /** Walked in numbering order, every slot record of the generated heap sits at the index
      fxPrintAddress prints for that slot, and the heap has as many records as the count
      fxPrepareHeap returns, so the header points just past the last record. */
  lemma {:induction false} PrintedHeapAgrees(s: seq<Slot>, heaps: seq<Segment>, bigintStart: int)
    requires SegmentsOk(heaps, |s|) && SlotsOk(s)
    ensures var ps := ProjectionList(s, heaps, 1);
            var count := 2 + Span(s, HeapOrder(heaps, |s|));
            && ProjectionsOk(ps) && InArena(ps, |s|)
            && HeapLinked(ps, s, count, bigintStart)
  {
    var ps := ProjectionList(s, heaps, 1);
    var order := Reversed(ps);
    var count := 2 + Span(s, HeapOrder(heaps, |s|));
    assert ProjectionsOk(ps) && InArena(ps, |s|) && InArena(order, |s|) &&
           forall l :: 0 <= l < |heaps| ==> order[l].heap == heaps[l].heap && order[l].limit == heaps[l].limit
    by {
      ProjectionListInArena(s, heaps, 1);
      ReversedFollows(ps, heaps, |s|);
    }
    assert AllNumbered(ps, s, order, 1, |ps|) by {
      HeapNumbered(s, heaps, order, |heaps|);
    }
    OrderAgrees(ps, s, heaps, count, bigintStart);
  }

  // ------------------------------------------------------------------ the order as written

  /** As written, the record after the header is printed from the first slot of the segment
      at the head of the projection list, when that slot is live. */
  lemma {:induction false} AsWrittenFirst(ps: seq<Projection>, s: seq<Slot>, count: int, bigintStart: int)
    requires ProjectionsOk(ps) && SlotsOk(s) && InArena(ps, |s|) && |ps| > 0
    requires ps[0].heap + 1 < ps[0].limit && Mark !in s[ps[0].heap + 1].flag
    ensures var records := PrintedHeapAsWritten(ps, s, count, bigintStart).records;
            records[1].SlotRecord? && records[1].from == InHeap(ps[0].heap + 1)
  {
    var a := ps[0].heap + 1;
    var start := Pen([HeapHeader(0, count)], 1, bigintStart, []);
    var visit := PrintVisit(ps, s, start, a).records;
    var first := PrintSegments(ps, s, start, ps, 1).records;
    var body := PrintSegments(ps, s, start, ps, |ps|);
    assert visit <= first by {
      assert PrintRun(ps, s, start, a, a) == start;
      assert PrintRun(ps, s, start, a, a + 1).records == visit;
      assert first == PrintRun(ps, s, start, a, ps[0].limit).records;
      RunPrefix(ps, s, start, a, a + 1, ps[0].limit);
    }
    assert first <= body.records by {
      SegmentsPrefix(ps, s, start, ps, 1, |ps|);
    }
    PrefixThrough(visit, first, body.records);
    assert PrintedHeapAsWritten(ps, s, count, bigintStart).records == body.records + [HeapEnd(body.index)];
  }

  /** A run printed up to `m` is the start of the same run printed up to any `hi` past it. */
  lemma RunPrefix(ps: seq<Projection>, s: seq<Slot>, pen: Pen, lo: nat, m: nat, hi: nat)
    requires ProjectionsOk(ps) && SlotsOk(s) && m <= hi <= |s|
    ensures PrintRun(ps, s, pen, lo, m).records <= PrintRun(ps, s, pen, lo, hi).records
  {
    var run := (k: nat) => if k <= |s| then PrintRun(ps, s, pen, lo, k).records else [];
    forall k | m <= k < hi ensures run(k) <= run(k + 1) {
      RunStepPrefix(ps, s, pen, lo, k + 1);
    }
    ChainPrefix(run, m, hi);
  }

  /** In a chain where every entry starts the next one, every entry starts all later ones. */
  lemma {:induction false} ChainPrefix(chain: nat -> seq<Record>, m: nat, hi: nat)
    requires m <= hi && forall k :: m <= k < hi ==> chain(k) <= chain(k + 1)
    ensures chain(m) <= chain(hi)
    decreases hi
  {
    if m < hi {
      ChainPrefix(chain, m, hi - 1);
      PrefixThrough(chain(m), chain(hi - 1), chain(hi));
    }
  }

  /** One more slot only appends to the run. */
  lemma RunStepPrefix(ps: seq<Projection>, s: seq<Slot>, pen: Pen, lo: nat, hi: nat)
    requires ProjectionsOk(ps) && SlotsOk(s) && 0 < hi <= |s|
    ensures PrintRun(ps, s, pen, lo, hi - 1).records <= PrintRun(ps, s, pen, lo, hi).records
  {
    if lo < hi {
      var before := PrintRun(ps, s, pen, lo, hi - 1);
      assert PrintRun(ps, s, pen, lo, hi) == PrintVisit(ps, s, before, hi - 1);
    }
  }

  /** The first n segments printed are the start of the first `hi` segments printed. */
  lemma {:induction false} SegmentsPrefix(ps: seq<Projection>, s: seq<Slot>, pen: Pen, order: seq<Projection>, n: nat, hi: nat)
    requires ProjectionsOk(ps) && SlotsOk(s) && InArena(order, |s|) && n <= hi <= |order|
    ensures PrintSegments(ps, s, pen, order, n).records <= PrintSegments(ps, s, pen, order, hi).records
    decreases hi
  {
    if n < hi {
      SegmentsPrefix(ps, s, pen, order, n, hi - 1);
      var before := PrintSegments(ps, s, pen, order, hi - 1);
      var after := PrintSegments(ps, s, pen, order, hi);
      assert before.records <= after.records by {
        assert after == PrintRun(ps, s, before, order[hi - 1].heap + 1, order[hi - 1].limit);
      }
      PrefixThrough(PrintSegments(ps, s, pen, order, n).records, before.records, after.records);
    }
  }

  lemma PrefixThrough(part: seq<Record>, before: seq<Record>, after: seq<Record>)
    requires part <= before && before <= after
    ensures part <= after
  {
  }

  /** fxPrintHeap as written walks the projection list from its head, which holds the
      segment fxPrepareHeap numbered last: when the first slot of that segment is live, the
      record after the header is printed from it, while a pointer to it prints one past
      what the slots of every earlier segment take. */
  lemma {:induction false} LastSegmentFirst(s: seq<Slot>, heaps: seq<Segment>, count: int, bigintStart: int)
    requires SegmentsOk(heaps, |s|) && SlotsOk(s) && |heaps| > 0
    requires heaps[|heaps| - 1].heap + 1 < heaps[|heaps| - 1].limit && Mark !in s[heaps[|heaps| - 1].heap + 1].flag
    ensures var ps := ProjectionList(s, heaps, 1);
            var a := heaps[|heaps| - 1].heap + 1;
            && ProjectionsOk(ps) && InArena(ps, |s|) && AllBelow(Addresses(heaps[..|heaps| - 1]), |s|)
            && FirstPrintedAsWritten(ps, s, count, bigintStart, a)
            && Address(ps, Ptr(a)) == Index(1 + Span(s, Addresses(heaps[..|heaps| - 1])))
  {
    var ps := ProjectionList(s, heaps, 1);
    var k := |heaps| - 1;
    var a := heaps[k].heap + 1;
    assert ProjectionsOk(ps) && InArena(ps, |s|) && ps[0].heap == heaps[k].heap && ps[0].limit == heaps[k].limit by {
      ProjectionListInArena(s, heaps, 1);
    }
    assert AllBelow(Addresses(heaps[..k]), |s|) && Address(ps, Ptr(a)) == Index(1 + Span(s, Addresses(heaps[..k]))) by {
      AddressAtRun(s, heaps, k, a);
    }
    assert FirstPrintedAsWritten(ps, s, count, bigintStart, a) by {
      AsWrittenFirst(ps, s, count, bigintStart);
    }
  }

  /** The smallest case: with the segments 0 .. 1 and 2 .. 3 and slots 1 and 3 live, the
      record after the header is printed from slot 3, while a pointer to slot 3 prints the
      index after what slot 1 takes, never 1. */
  lemma {:induction false} PrintOrderMismatch(s: seq<Slot>, count: int, bigintStart: int)
    requires |s| == 4 && SlotsOk(s) && Mark !in s[1].flag && Mark !in s[3].flag
    ensures var heaps := [Segment(0, 2), Segment(2, 4)];
            var ps := ProjectionList(s, heaps, 1);
            && SegmentsOk(heaps, |s|) && ProjectionsOk(ps) && InArena(ps, |s|)
            && FirstPrintedAsWritten(ps, s, count, bigintStart, 3)
            && Address(ps, Ptr(3)) == Index(1 + Width(s[1])) != Index(1)
  {
    var heaps := [Segment(0, 2), Segment(2, 4)];
    assert SegmentsOk(heaps, |s|) by {
      assert Apart(heaps[0], heaps[1]);
    }
    LastSegmentFirst(s, heaps, count, bigintStart);
    assert Span(s, Addresses(heaps[..1])) == Width(s[1]) by {
      assert heaps[..1] == [Segment(0, 2)];
      assert Addresses(heaps[..1]) == Range(1, 2) == [1];
      assert [1][..0] == [];
    }
  }

  /** With a single segment the projection list reads the same from either end, so the
      heap fxPrintHeap writes as written is the one the corrected walk writes. */
  lemma {:induction false} SingleSegmentSame(ps: seq<Projection>, s: seq<Slot>, count: int, bigintStart: int)
    requires ProjectionsOk(ps) && SlotsOk(s) && InArena(ps, |s|) && |ps| <= 1
    ensures PrintedHeapAsWritten(ps, s, count, bigintStart) == PrintedHeap(ps, s, count, bigintStart)
  {
    assert Reversed(ps) == ps;
  }
}
