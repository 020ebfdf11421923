/** The third loop of fxPrepareHeap: every live slot, in visit order, takes the next index;
    an array with element storage also takes one index for its chunk header and one per
    element, and its elements are sealed; instances are prepared; BigInt words are counted.
    Each segment records the indexes of its slots in a projection, and the projections are
    kept in a list to which each new one is prepended. */
module Projection {
  import opened Slots
  import opened Prepare

  /** How many indexes a slot takes. */
  function Width(x: Slot): (w: nat)
    ensures w == 0 <==> Mark in x.flag
    ensures w > 1 ==> x.kind.Array? && x.kind.address.Ptr? && w == x.kind.count + 2
  {
    if Mark in x.flag then 0
    else if x.kind.Array? && x.kind.address.Ptr? then x.kind.count + 2
    else 1
  }

  /** The BigInt words a slot adds to the running total. */
  function Words(x: Slot): nat {
    if Mark !in x.flag && x.kind.BigInt? then x.kind.size else 0
  }

  /** The indexes taken by the slots `xs`. */
  function Span(s: seq<Slot>, xs: seq<nat>): nat
    requires AllBelow(xs, |s|)
    decreases |xs|
  {
    if xs == [] then 0 else Span(s, xs[..|xs| - 1]) + Width(s[xs[|xs| - 1]])
  }

  /** The BigInt words of the slots `xs`. */
  function BigTotal(s: seq<Slot>, xs: seq<nat>): nat
    requires AllBelow(xs, |s|)
    decreases |xs|
  {
    if xs == [] then 0 else BigTotal(s, xs[..|xs| - 1]) + Words(s[xs[|xs| - 1]])
  }

  /** Flag growth never touches the mark, so what a slot takes does not change. */
  lemma GrowsWidth(s: seq<Slot>, t: seq<Slot>, a: nat)
    requires Grows(s, t) && a < |s|
    ensures Width(t[a]) == Width(s[a]) && Words(t[a]) == Words(s[a])
  {
    assert GrowsAt(s, t, a);
    assert Mark !in {DontDelete, DontSet, DontPatch};
    assert Mark !in t[a].flag - s[a].flag;
  }

  lemma {:induction false} GrowsSpan(s: seq<Slot>, t: seq<Slot>, xs: seq<nat>)
    requires Grows(s, t) && AllBelow(xs, |s|)
    ensures Span(t, xs) == Span(s, xs) && BigTotal(t, xs) == BigTotal(s, xs)
    decreases |xs|
  {
    if xs != [] {
      var a := xs[|xs| - 1];
      GrowsSpan(s, t, xs[..|xs| - 1]);
      GrowsWidth(s, t, a);
    }
  }

  lemma SpanSnoc(s: seq<Slot>, xs: seq<nat>, a: nat)
    requires AllBelow(xs, |s|) && a < |s|
    ensures AllBelow(xs + [a], |s|)
    ensures Span(s, xs + [a]) == Span(s, xs) + Width(s[a])
    ensures BigTotal(s, xs + [a]) == BigTotal(s, xs) + Words(s[a])
  {
    assert (xs + [a])[..|xs|] == xs;
  }

  // ------------------------------------------------------------------ one slot

  /** The arena, the next index and the BigInt total, as the loop carries them. */
  datatype Tally = Tally(slots: seq<Slot>, index: int, bigintSize: int)

  /** The elements of the array at `a` sealed, then the array made DONT_DELETE|DONT_SET. */
  function SealArray(s: seq<Slot>, a: nat): (r: seq<Slot>)
    requires a < |s| && SlotOk(|s|, s[a]) && s[a].kind.Array? && s[a].kind.address.Ptr?
    ensures |r| == |s|
  {
    var k := s[a].kind;
    var t := SealRange(s, k.address.at, k.address.at + k.count);
    t[a := AddFlags(t[a], {DontDelete, DontSet})]
  }

  /** Sealing an array only adds DONT_DELETE and DONT_SET. It leaves the array DONT_DELETE and
      DONT_SET, and each element DONT_DELETE, and DONT_SET unless it is an accessor. */
  lemma SealArraySeals(s: seq<Slot>, a: nat)
    requires a < |s| && SlotOk(|s|, s[a]) && s[a].kind.Array? && s[a].kind.address.Ptr?
    ensures Grows(s, SealArray(s, a))
    ensures var r := SealArray(s, a); DontDelete in r[a].flag && DontSet in r[a].flag
    ensures var r := SealArray(s, a);
            var base := s[a].kind.address.at;
            forall i :: base <= i < base + s[a].kind.count ==>
              DontDelete in r[i].flag && (r[i].kind.Accessor? || DontSet in r[i].flag)
  {
    var r := SealArray(s, a);
    var base := s[a].kind.address.at;
    forall i | 0 <= i < |s|
      ensures GrowsAt(s, r, i)
      ensures base <= i < base + s[a].kind.count ==>
                DontDelete in r[i].flag && (r[i].kind.Accessor? || DontSet in r[i].flag)
    {
      SealRangeAt(s, base, base + s[a].kind.count, i);
    }
  }

  /** One slot of the loop. */
  ghost function ProjectStep(c: Context, t: Tally, a: nat): (r: Tally)
    requires Wf(t.slots) && a < |t.slots|
    ensures Grows(t.slots, r.slots) && Wf(r.slots)
    ensures r.index == t.index + Width(t.slots[a]) && r.bigintSize == t.bigintSize + Words(t.slots[a])
  {
    var x := t.slots[a];
    assert SlotOk(|t.slots|, x);
    if Mark in x.flag then t
    else
      var slots :=
        if x.kind.Array? && x.kind.address.Ptr? then SealArray(t.slots, a)
        else if x.kind.Instance? then PrepareShape(c, t.slots, a)
        else t.slots;
      assert Grows(t.slots, slots) by {
        if x.kind.Array? && x.kind.address.Ptr? {
          SealArraySeals(t.slots, a);
        }
      }
      GrowsWf(t.slots, slots);
      Tally(slots, t.index + Width(x), t.bigintSize + Words(x))
  }

  /** What visiting one slot does to the tally: a step of a loop over slots. */
  type Step = (Tally, nat) -> Tally

  /** The step of the projection loop: ProjectStep, on a well-formed arena and a slot of it. */
  ghost function LoopStep(c: Context): Step {
    (t: Tally, a: nat) => if Wf(t.slots) && a < |t.slots| then ProjectStep(c, t, a) else t
  }

  /** A step that only adds flags to a well-formed arena, and moves the next index and the
      BigInt total past what the visited slot takes. */
  ghost predicate StepOk(step: Step) {
    forall t: Tally, a: nat {:trigger step(t, a)} :: Wf(t.slots) && a < |t.slots| ==>
      && Grows(t.slots, step(t, a).slots) && Wf(step(t, a).slots)
      && step(t, a).index == t.index + Width(t.slots[a])
      && step(t, a).bigintSize == t.bigintSize + Words(t.slots[a])
  }

  lemma LoopStepOk(c: Context)
    ensures StepOk(LoopStep(c))
  {
    forall t: Tally, a: nat | Wf(t.slots) && a < |t.slots|
      ensures LoopStep(c)(t, a) == ProjectStep(c, t, a)
    {
    }
  }

  /** The loop over the slots `xs`, from the tally `t`. */
  ghost function ProjectFold(step: Step, t: Tally, xs: seq<nat>): Tally
    decreases |xs|
  {
    if xs == [] then t else step(ProjectFold(step, t, xs[..|xs| - 1]), xs[|xs| - 1])
  }

  /** The loop only adds flags, and takes the indexes and BigInt words of the live slots it
      visits. */
  lemma {:induction false} ProjectFoldCounts(step: Step, t: Tally, xs: seq<nat>)
    requires StepOk(step) && Wf(t.slots) && AllBelow(xs, |t.slots|)
    ensures Grows(t.slots, ProjectFold(step, t, xs).slots) && Wf(ProjectFold(step, t, xs).slots)
    ensures ProjectFold(step, t, xs).index == t.index + Span(t.slots, xs)
    ensures ProjectFold(step, t, xs).bigintSize == t.bigintSize + BigTotal(t.slots, xs)
    decreases |xs|
  {
    if xs != [] {
      var m := |xs| - 1;
      var u := ProjectFold(step, t, xs[..m]);
      ProjectFoldCounts(step, t, xs[..m]);
      GrowsWidth(t.slots, u.slots, xs[m]);
      GrowsTrans(t.slots, u.slots, step(u, xs[m]).slots);
    }
  }

  lemma ProjectFoldSnoc(step: Step, t: Tally, xs: seq<nat>, a: nat)
    ensures ProjectFold(step, t, xs + [a]) == step(ProjectFold(step, t, xs), a)
  {
    assert (xs + [a])[..|xs|] == xs;
  }

  /** Running the loop over `xs` then `ys` is running it over `xs + ys`. */
  lemma {:induction false} ProjectFoldAppend(step: Step, t: Tally, xs: seq<nat>, ys: seq<nat>)
    ensures ProjectFold(step, t, xs + ys) == ProjectFold(step, ProjectFold(step, t, xs), ys)
    decreases |ys|
  {
    if ys == [] {
      assert xs + ys == xs;
    } else {
      var m := |ys| - 1;
      AppendLast(xs, ys);
      ProjectFoldAppend(step, t, xs, ys[..m]);
      ProjectFoldSnoc(step, t, xs + ys[..m], ys[m]);
      ProjectFoldSnoc(step, ProjectFold(step, t, xs), ys[..m], ys[m]);
    }
  }

  /** Every live array with element storage that the loop visits ends up DONT_DELETE and
      DONT_SET, and each of its elements DONT_DELETE, and DONT_SET unless it is an accessor. */
  lemma ProjectFoldSealsArray(c: Context, t: Tally, xs: seq<nat>, i: nat)
    requires Wf(t.slots) && AllBelow(xs, |t.slots|) && i < |xs|
    requires var x := t.slots[xs[i]]; Mark !in x.flag && x.kind.Array? && x.kind.address.Ptr?
    ensures var x := t.slots[xs[i]];
            var r := ProjectFold(LoopStep(c), t, xs).slots;
            && |r| == |t.slots|
            && DontDelete in r[xs[i]].flag && DontSet in r[xs[i]].flag
            && x.kind.address.at + x.kind.count <= |r|
            && forall e :: x.kind.address.at <= e < x.kind.address.at + x.kind.count ==>
                 DontDelete in r[e].flag && (r[e].kind.Accessor? || DontSet in r[e].flag)
  {
    var a := xs[i];
    assert SlotOk(|t.slots|, t.slots[a]);
    assert xs == xs[..i] + ([a] + xs[i + 1..]);
    assert xs[..i] + [a] + xs[i + 1..] == xs;
    var step := LoopStep(c);
    LoopStepOk(c);
    var u := ProjectFold(step, t, xs[..i]);
    ProjectFoldCounts(step, t, xs[..i]);
    assert GrowsAt(t.slots, u.slots, a);
    GrowsWidth(t.slots, u.slots, a);
    ProjectFoldSnoc(step, t, xs[..i], a);
    var v := step(u, a);
    assert v == ProjectStep(c, u, a);
    assert v.slots == SealArray(u.slots, a);
    SealArraySeals(u.slots, a);
    ProjectFoldAppend(step, t, xs[..i] + [a], xs[i + 1..]);
    ProjectFoldCounts(step, v, xs[i + 1..]);
    var r := ProjectFold(step, v, xs[i + 1..]).slots;
    assert GrowsAt(v.slots, r, a);
    var x := t.slots[a];
    forall e | x.kind.address.at <= e < x.kind.address.at + x.kind.count
      ensures DontDelete in r[e].flag && (r[e].kind.Accessor? || DontSet in r[e].flag)
    {
      assert GrowsAt(v.slots, r, e);
    }
  }

  // ------------------------------------------------------------------ projections

  /** The indexes recorded for one segment: position j holds the index of slot heap+j, or
      0 for the header and for a free slot. `before` are the slots visited earlier. */
  datatype Projection = Projection(heap: nat, limit: nat, indexes: seq<int>)

  /** What the slots lo .. hi-1 take. */
  function RunWidth(s: seq<Slot>, lo: nat, hi: nat): nat
    requires hi <= |s|
    decreases hi
  {
    if hi <= lo then 0 else RunWidth(s, lo, hi - 1) + Width(s[hi - 1])
  }

  /** The index recorded at position j of the table of `seg` when its first slot takes the
      index `base`: 0 for the header and for a free slot. */
  function IndexAt(s: seq<Slot>, seg: Segment, base: int, j: nat): int
    requires seg.heap < seg.limit <= |s| && j < seg.limit - seg.heap
  {
    if j == 0 || Mark in s[seg.heap + j].flag then 0
    else base + RunWidth(s, seg.heap + 1, seg.heap + j)
  }

  /** The first `n` entries of the index table of `seg`. */
  function IndexTable(s: seq<Slot>, seg: Segment, base: int, n: nat): (r: seq<int>)
    requires seg.heap < seg.limit <= |s| && n <= seg.limit - seg.heap
    ensures |r| == n
  {
    if n == 0 then [] else IndexTable(s, seg, base, n - 1) + [IndexAt(s, seg, base, n - 1)]
  }

  /** Entry j of the table is the index of slot heap+j. */
  lemma {:induction false} IndexTableAt(s: seq<Slot>, seg: Segment, base: int, n: nat, j: nat)
    requires seg.heap < seg.limit <= |s| && j < n <= seg.limit - seg.heap
    ensures IndexTable(s, seg, base, n)[j] == IndexAt(s, seg, base, j)
    decreases n
  {
    if j < n - 1 {
      IndexTableAt(s, seg, base, n - 1, j);
    }
  }

  lemma IndexTableAll(s: seq<Slot>, seg: Segment, base: int, n: nat)
    requires seg.heap < seg.limit <= |s| && n <= seg.limit - seg.heap
    ensures forall j :: 0 <= j < n ==> IndexTable(s, seg, base, n)[j] == IndexAt(s, seg, base, j)
  {
    forall j | 0 <= j < n {
      IndexTableAt(s, seg, base, n, j);
    }
  }

  /** The index table of `seg` after the slots `before` of earlier segments, when the
      first slot visited takes the index `start`. */
  function SegmentIndexes(s: seq<Slot>, seg: Segment, before: seq<nat>, start: int): (r: seq<int>)
    requires seg.heap < seg.limit <= |s| && AllBelow(before, |s|)
    ensures |r| == seg.limit - seg.heap && r[0] == 0
    ensures forall j :: 0 < j < |r| && Mark in s[seg.heap + j].flag ==> r[j] == 0
    ensures forall j :: 0 <= j < |r| ==> r[j] == IndexAt(s, seg, start + Span(s, before), j)
  {
    IndexTableAll(s, seg, start + Span(s, before), seg.limit - seg.heap);
    IndexTable(s, seg, start + Span(s, before), seg.limit - seg.heap)
  }

  lemma {:induction false} RunWidthSplit(s: seq<Slot>, lo: nat, mid: nat, hi: nat)
    requires lo <= mid <= hi <= |s|
    ensures RunWidth(s, lo, hi) == RunWidth(s, lo, mid) + RunWidth(s, mid, hi)
    decreases hi
  {
    if mid < hi {
      RunWidthSplit(s, lo, mid, hi - 1);
    }
  }

  /** A run takes at least what its first slot takes. */
  lemma {:induction false} RunWidthFirst(s: seq<Slot>, lo: nat, hi: nat)
    requires lo < hi <= |s|
    ensures RunWidth(s, lo, hi) >= Width(s[lo])
    decreases hi
  {
    if lo < hi - 1 {
      RunWidthFirst(s, lo, hi - 1);
    }
  }

  /** A run of free slots takes nothing. */
  lemma {:induction false} RunWidthFree(s: seq<Slot>, lo: nat, hi: nat)
    requires hi <= |s| && forall i :: lo <= i < hi ==> Mark in s[i].flag
    ensures RunWidth(s, lo, hi) == 0
    decreases hi
  {
    if lo < hi {
      RunWidthFree(s, lo, hi - 1);
    }
  }

  /** Flag growth leaves what a run takes, and so the index table, unchanged. */
  lemma {:induction false} GrowsRunWidth(s: seq<Slot>, t: seq<Slot>, lo: nat, hi: nat)
    requires Grows(s, t) && hi <= |s|
    ensures RunWidth(t, lo, hi) == RunWidth(s, lo, hi)
    decreases hi
  {
    if lo < hi {
      GrowsRunWidth(s, t, lo, hi - 1);
      GrowsWidth(s, t, hi - 1);
    }
  }

  lemma {:induction false} GrowsIndexTable(s: seq<Slot>, t: seq<Slot>, seg: Segment, base: int, n: nat)
    requires Grows(s, t) && seg.heap < seg.limit <= |s| && n <= seg.limit - seg.heap
    ensures IndexTable(t, seg, base, n) == IndexTable(s, seg, base, n)
    decreases n
  {
    if n > 0 {
      GrowsIndexTable(s, t, seg, base, n - 1);
      GrowsRunWidth(s, t, seg.heap + 1, seg.heap + n - 1);
      GrowsWidth(s, t, seg.heap + n - 1);
    }
  }

  /** Flag growth keeps every mark. */
  lemma GrowsSameMarks(s: seq<Slot>, t: seq<Slot>)
    requires Grows(s, t)
    ensures SameMarks(s, t)
  {
    forall i | 0 <= i < |s| ensures s[i].next == t[i].next && s[i].kind == t[i].kind && (Mark in s[i].flag <==> Mark in t[i].flag) {
      assert GrowsAt(s, t, i);
      GrowsWidth(s, t, i);
    }
  }

  lemma {:induction false} MarksRunWidth(s: seq<Slot>, t: seq<Slot>, lo: nat, hi: nat)
    requires SameMarks(s, t) && hi <= |s|
    ensures RunWidth(t, lo, hi) == RunWidth(s, lo, hi)
    decreases hi
  {
    if lo < hi {
      MarksRunWidth(s, t, lo, hi - 1);
      assert Width(t[hi - 1]) == Width(s[hi - 1]);
    }
  }

  lemma {:induction false} MarksSpan(s: seq<Slot>, t: seq<Slot>, xs: seq<nat>)
    requires SameMarks(s, t) && AllBelow(xs, |s|)
    ensures Span(t, xs) == Span(s, xs)
    decreases |xs|
  {
    if xs != [] {
      MarksSpan(s, t, xs[..|xs| - 1]);
      assert Width(t[xs[|xs| - 1]]) == Width(s[xs[|xs| - 1]]);
    }
  }

  lemma {:induction false} MarksIndexTable(s: seq<Slot>, t: seq<Slot>, seg: Segment, base: int, n: nat)
    requires SameMarks(s, t) && seg.heap < seg.limit <= |s| && n <= seg.limit - seg.heap
    ensures IndexTable(t, seg, base, n) == IndexTable(s, seg, base, n)
    decreases n
  {
    if n > 0 {
      MarksIndexTable(s, t, seg, base, n - 1);
      MarksRunWidth(s, t, seg.heap + 1, seg.heap + n - 1);
    }
  }

  /** The projection list reads only links, kinds and marks: two arena states that agree on
      those give the same list. */
  lemma MarksProjectionList(s: seq<Slot>, t: seq<Slot>, heaps: seq<Segment>, start: int)
    requires SameMarks(s, t) && SegmentsOk(heaps, |s|)
    ensures ProjectionList(t, heaps, start) == ProjectionList(s, heaps, start)
  {
    var n := |heaps|;
    var l, r := ProjectionList(t, heaps, start), ProjectionList(s, heaps, start);
    forall i | 0 <= i < n ensures l[i] == r[i] {
      var k := n - 1 - i;
      MarksSegmentProjection(s, t, heaps, k, start);
      assert l[n - 1 - k] == SegmentProjection(t, heaps, k, start);
      assert r[n - 1 - k] == SegmentProjection(s, heaps, k, start);
    }
  }

  lemma MarksSegmentProjection(s: seq<Slot>, t: seq<Slot>, heaps: seq<Segment>, k: nat, start: int)
    requires SameMarks(s, t) && SegmentsOk(heaps, |s|) && k < |heaps|
    ensures SegmentProjection(t, heaps, k, start) == SegmentProjection(s, heaps, k, start)
  {
    assert SegmentsOk(heaps[..k], |s|);
    AddressesBelow(heaps[..k], |s|);
    var before := Addresses(heaps[..k]);
    MarksSpan(s, t, before);
    MarksIndexTable(s, t, heaps[k], start + Span(s, before), heaps[k].limit - heaps[k].heap);
  }

  /** Visiting the slots lo .. hi-1 after `done` takes what `done` takes plus the run. */
  lemma {:induction false} VisitedSpan(s: seq<Slot>, done: seq<nat>, lo: nat, hi: nat)
    requires AllBelow(done, |s|) && hi <= |s|
    ensures AllBelow(Visited(done, lo, hi), |s|)
    ensures Span(s, Visited(done, lo, hi)) == Span(s, done) + RunWidth(s, lo, hi)
    decreases hi
  {
    VisitedBelow(done, lo, hi, |s|);
    if lo < hi {
      VisitedSpan(s, done, lo, hi - 1);
      SpanSnoc(s, Visited(done, lo, hi - 1), hi - 1);
    }
  }

  /** Between two live slots of a segment the index advances by exactly what the slots from
      the first up to the second take: the numbering has no gaps, and it strictly increases. */
  lemma SegmentIndexesBetween(s: seq<Slot>, seg: Segment, before: seq<nat>, start: int, j1: nat, j2: nat)
    requires seg.heap < seg.limit <= |s| && AllBelow(before, |s|)
    requires 0 < j1 < j2 < seg.limit - seg.heap
    requires Mark !in s[seg.heap + j1].flag && Mark !in s[seg.heap + j2].flag
    ensures var r := SegmentIndexes(s, seg, before, start);
            r[j2] == r[j1] + RunWidth(s, seg.heap + j1, seg.heap + j2)
    ensures var r := SegmentIndexes(s, seg, before, start);
            r[j1] + Width(s[seg.heap + j1]) <= r[j2] && r[j1] < r[j2]
  {
    var r, base := SegmentIndexes(s, seg, before, start), start + Span(s, before);
    assert r[j1] == IndexAt(s, seg, base, j1) && r[j2] == IndexAt(s, seg, base, j2);
    RunWidthSplit(s, seg.heap + 1, seg.heap + j1, seg.heap + j2);
    RunWidthFirst(s, seg.heap + j1, seg.heap + j2);
  }

  /** A live slot preceded in its segment by free slots only takes the first index after the
      earlier segments: in the first segment, the index `start`. */
  lemma SegmentIndexesFirstLive(s: seq<Slot>, seg: Segment, before: seq<nat>, start: int, j: nat)
    requires seg.heap < seg.limit <= |s| && AllBelow(before, |s|)
    requires 0 < j < seg.limit - seg.heap && Mark !in s[seg.heap + j].flag
    requires forall i :: seg.heap < i < seg.heap + j ==> Mark in s[i].flag
    ensures SegmentIndexes(s, seg, before, start)[j] == start + Span(s, before)
  {
    var base := start + Span(s, before);
    assert SegmentIndexes(s, seg, before, start)[j] == IndexAt(s, seg, base, j);
    RunWidthFree(s, seg.heap + 1, seg.heap + j);
  }

  /** The index of a live slot is `start` plus what every slot visited before it takes, in
      heap-then-position order. */
  lemma SegmentIndexesPosition(s: seq<Slot>, heaps: seq<Segment>, k: nat, start: int, j: nat)
    requires SegmentsOk(heaps, |s|) && k < |heaps| && 0 < j < heaps[k].limit - heaps[k].heap
    requires Mark !in s[heaps[k].heap + j].flag
    ensures AllBelow(Addresses(heaps[..k]), |s|) && AllBelow(Addresses(heaps), |s|)
    ensures var p := |Addresses(heaps[..k])| + j - 1;
            && p < |Addresses(heaps)| && Addresses(heaps)[p] == heaps[k].heap + j
            && SegmentIndexes(s, heaps[k], Addresses(heaps[..k]), start)[j] ==
                 start + Span(s, Addresses(heaps)[..p])
  {
    var seg := heaps[k];
    assert SegmentsOk(heaps[..k], |s|);
    AddressesBelow(heaps[..k], |s|);
    AddressesBelow(heaps, |s|);
    AddressesPosition(heaps, k, j);
    var before := Addresses(heaps[..k]);
    VisitedSpan(s, before, seg.heap + 1, seg.heap + j);
    assert SegmentIndexes(s, seg, before, start)[j] == IndexAt(s, seg, start + Span(s, before), j);
  }

  /** The projection of segment k: its bounds and the indexes of its slots, after the
      slots of the segments before it. */
  function SegmentProjection(s: seq<Slot>, heaps: seq<Segment>, k: nat, start: int): (p: Projection)
    requires SegmentsOk(heaps, |s|) && k < |heaps|
    ensures p.heap == heaps[k].heap && p.limit == heaps[k].limit
  {
    assert SegmentsOk(heaps[..k], |s|);
    AddressesBelow(heaps[..k], |s|);
    Projection(heaps[k].heap, heaps[k].limit, SegmentIndexes(s, heaps[k], Addresses(heaps[..k]), start))
  }

  /** A segment's projection depends only on the segments up to it. */
  lemma SegmentProjectionPrefix(s: seq<Slot>, heaps: seq<Segment>, n: nat, k: nat, start: int)
    requires SegmentsOk(heaps, |s|) && k < n <= |heaps|
    ensures SegmentsOk(heaps[..n], |s|)
    ensures SegmentProjection(s, heaps[..n], k, start) == SegmentProjection(s, heaps, k, start)
  {
    assert SegmentsOk(heaps[..n], |s|);
    assert heaps[..n][..k] == heaps[..k] && heaps[..n][k] == heaps[k];
  }

  /** The list of projections after the segments `heaps`: each new one is put at the head,
      so segment k sits at position |heaps| - 1 - k and the last segment comes first. */
  function ProjectionList(s: seq<Slot>, heaps: seq<Segment>, start: int): (r: seq<Projection>)
    requires SegmentsOk(heaps, |s|)
    ensures |r| == |heaps|
    ensures forall k :: 0 <= k < |heaps| ==> r[|heaps| - 1 - k] == SegmentProjection(s, heaps, k, start)
    decreases |heaps|
  {
    if heaps == [] then []
    else
      var m := |heaps| - 1;
      assert SegmentsOk(heaps[..m], |s|);
      SegmentProjectionsPrefix(s, heaps, m, start);
      [SegmentProjection(s, heaps, m, start)] + ProjectionList(s, heaps[..m], start)
  }

  lemma SegmentProjectionsPrefix(s: seq<Slot>, heaps: seq<Segment>, n: nat, start: int)
    requires SegmentsOk(heaps, |s|) && n <= |heaps|
    ensures SegmentsOk(heaps[..n], |s|)
    ensures forall k :: 0 <= k < n ==> SegmentProjection(s, heaps[..n], k, start) == SegmentProjection(s, heaps, k, start)
  {
    assert SegmentsOk(heaps[..n], |s|);
    forall k | 0 <= k < n
      ensures SegmentProjection(s, heaps[..n], k, start) == SegmentProjection(s, heaps, k, start)
    {
      SegmentProjectionPrefix(s, heaps, n, k, start);
    }
  }

  // ------------------------------------------------------------------ loop states

  /** The loop over the slots lo .. hi-1 of one segment, from the tally `t`. */
  ghost function ProjectRun(step: Step, t: Tally, lo: nat, hi: nat): Tally
    decreases hi
  {
    if hi <= lo then t else step(ProjectRun(step, t, lo, hi - 1), hi - 1)
  }

  /** Running over a segment only adds flags, and moves the next index past the widths of
      the slots it visits. */
  lemma {:induction false} ProjectRunGrows(step: Step, t: Tally, lo: nat, hi: nat)
    requires StepOk(step) && Wf(t.slots) && hi <= |t.slots|
    ensures Grows(t.slots, ProjectRun(step, t, lo, hi).slots) && Wf(ProjectRun(step, t, lo, hi).slots)
    ensures ProjectRun(step, t, lo, hi).index == t.index + RunWidth(t.slots, lo, hi)
    decreases hi
  {
    if lo < hi {
      var u := ProjectRun(step, t, lo, hi - 1);
      ProjectRunGrows(step, t, lo, hi - 1);
      GrowsWidth(t.slots, u.slots, hi - 1);
      GrowsTrans(t.slots, u.slots, step(u, hi - 1).slots);
    }
  }

  /** Running over a segment continues the loop over the slots visited before it. */
  lemma {:induction false} ProjectRunFold(step: Step, t: Tally, done: seq<nat>, lo: nat, hi: nat)
    ensures ProjectFold(step, t, Visited(done, lo, hi)) == ProjectRun(step, ProjectFold(step, t, done), lo, hi)
    decreases hi
  {
    if lo < hi {
      var v := Visited(done, lo, hi - 1);
      assert Visited(done, lo, hi) == v + [hi - 1];
      ProjectRunFold(step, t, done, lo, hi - 1);
      ProjectFoldSnoc(step, t, v, hi - 1);
    }
  }

  /** The loop has visited the slots `xs` from the tally `start` and holds `t`: the arena and
      counters of the fold, and the next index after what the visited slots take. */
  ghost predicate Folded(step: Step, start: Tally, xs: seq<nat>, t: Tally) {
    && Wf(start.slots) && AllBelow(xs, |start.slots|)
    && ProjectFold(step, start, xs) == t && Wf(t.slots) && |t.slots| == |start.slots|
    && t.index == start.index + Span(start.slots, xs)
  }

  /** The state of the loop over `seg` when it reaches `slot`: the tally is the run so far,
      and the table holds the entries of the slots before `slot` and 0 from there on. */
  ghost predicate Filling(step: Step, t0: Tally, seg: Segment, slot: nat, t: Tally, table: seq<int>) {
    && Wf(t0.slots) && seg.heap < slot <= seg.limit <= |t0.slots| && |table| == seg.limit - seg.heap
    && t == ProjectRun(step, t0, seg.heap + 1, slot)
    && Grows(t0.slots, t.slots) && Wf(t.slots) && t.index == t0.index + RunWidth(t0.slots, seg.heap + 1, slot)
    && table[..slot - seg.heap] == IndexTable(t0.slots, seg, t0.index, slot - seg.heap)
    && forall j :: slot - seg.heap <= j < |table| ==> table[j] == 0
  }

  /** The table one slot further along the loop: the entry of `slot` is written, or left
      0 for a free slot, and what follows it is still 0. */
  lemma TableNext(s: seq<Slot>, seg: Segment, base: int, slot: nat, t: Tally, table: seq<int>,
                  table': seq<int>)
    requires seg.heap < slot < seg.limit <= |s| && |table| == seg.limit - seg.heap
    requires table[..slot - seg.heap] == IndexTable(s, seg, base, slot - seg.heap)
    requires forall j :: slot - seg.heap <= j < |table| ==> table[j] == 0
    requires Grows(s, t.slots) && t.index == base + RunWidth(s, seg.heap + 1, slot)
    requires table' == if Mark in t.slots[slot].flag then table else table[slot - seg.heap := t.index]
    ensures |table'| == |table|
    ensures table'[..slot + 1 - seg.heap] == IndexTable(s, seg, base, slot + 1 - seg.heap)
    ensures forall j :: slot + 1 - seg.heap <= j < |table'| ==> table'[j] == 0
  {
    var n := slot - seg.heap;
    assert GrowsAt(s, t.slots, slot);
    assert Mark !in {DontDelete, DontSet, DontPatch};
    assert Mark !in t.slots[slot].flag - s[slot].flag;
    assert table'[n] == IndexAt(s, seg, base, n);
    assert table'[..n + 1] == table[..n] + [table'[n]];
  }

  /** One more slot of the run: the tally is the run one slot further, it only added flags
      and its index moved past the width of the slot. */
  lemma RunStep(step: Step, t0: Tally, lo: nat, slot: nat, t: Tally, t': Tally)
    requires StepOk(step) && Wf(t0.slots) && lo <= slot < |t0.slots|
    requires t == ProjectRun(step, t0, lo, slot)
    requires Grows(t0.slots, t.slots) && Wf(t.slots) && t.index == t0.index + RunWidth(t0.slots, lo, slot)
    requires t' == step(t, slot)
    ensures t' == ProjectRun(step, t0, lo, slot + 1)
    ensures Grows(t0.slots, t'.slots) && Wf(t'.slots) && t'.index == t0.index + RunWidth(t0.slots, lo, slot + 1)
  {
    GrowsWidth(t0.slots, t.slots, slot);
    GrowsTrans(t0.slots, t.slots, t'.slots);
  }

  /** The state of the projection loop after the first `k` segments. */
  ghost predicate Projected(step: Step, heaps: seq<Segment>, start: Tally, k: nat, t: Tally,
                            projections: seq<Projection>)
  {
    && StepOk(step) && k <= |heaps| && SegmentsOk(heaps, |start.slots|)
    && SegmentsOk(heaps[..k], |start.slots|)
    && Folded(step, start, Addresses(heaps[..k]), t)
    && projections == ProjectionList(start.slots, heaps[..k], start.index)
  }

  /** Projecting one more segment puts its projection at the head of the list. */
  lemma ProjectionListSnoc(s: seq<Slot>, heaps: seq<Segment>, k: nat, start: int)
    requires SegmentsOk(heaps, |s|) && k < |heaps|
    ensures SegmentsOk(heaps[..k], |s|) && SegmentsOk(heaps[..k + 1], |s|)
    ensures ProjectionList(s, heaps[..k + 1], start) ==
              [SegmentProjection(s, heaps, k, start)] + ProjectionList(s, heaps[..k], start)
  {
    assert SegmentsOk(heaps[..k], |s|) && SegmentsOk(heaps[..k + 1], |s|);
    assert heaps[..k + 1][..k] == heaps[..k];
    SegmentProjectionPrefix(s, heaps, k + 1, k, start);
  }

  lemma ProjectedFirst(step: Step, heaps: seq<Segment>, start: Tally)
    requires StepOk(step) && SegmentsOk(heaps, |start.slots|) && Wf(start.slots)
    ensures Projected(step, heaps, start, 0, start, [])
  {
    assert heaps[..0] == [];
  }

  /** The fold after one more segment, the slots lo .. hi-1. */
  lemma FoldedRun(step: Step, start: Tally, done: seq<nat>, lo: nat, hi: nat, t: Tally, t': Tally)
    requires StepOk(step) && Folded(step, start, done, t) && hi <= |start.slots|
    requires t' == ProjectRun(step, t, lo, hi)
    ensures Folded(step, start, Visited(done, lo, hi), t')
  {
    ProjectRunFold(step, start, done, lo, hi);
    ProjectRunGrows(step, t, lo, hi);
    ProjectFoldCounts(step, start, done);
    VisitedSpan(start.slots, done, lo, hi);
    GrowsRunWidth(start.slots, t.slots, lo, hi);
  }

  lemma ProjectedNext(step: Step, heaps: seq<Segment>, start: Tally, k: nat, t: Tally,
                      projections: seq<Projection>, t': Tally, projection: Projection, next: nat)
    requires k < |heaps| && next == k + 1 && Projected(step, heaps, start, k, t, projections)
    requires t' == ProjectRun(step, t, heaps[k].heap + 1, heaps[k].limit)
    requires projection == Projection(heaps[k].heap, heaps[k].limit,
                                      IndexTable(t.slots, heaps[k], t.index, heaps[k].limit - heaps[k].heap))
    ensures Projected(step, heaps, start, next, t', [projection] + projections)
  {
    ProjectionListSnoc(start.slots, heaps, k, start.index);
    ProjectFoldCounts(step, start, Addresses(heaps[..k]));
    FoldedNext(step, heaps, start, k, t, t');
    ProjectionListNext(start.slots, heaps, k, start.index, t.slots, t.index, projection, projections);
  }

  lemma FoldedNext(step: Step, heaps: seq<Segment>, start: Tally, k: nat, t: Tally, t': Tally)
    requires StepOk(step) && SegmentsOk(heaps, |start.slots|) && k < |heaps|
    requires Folded(step, start, Addresses(heaps[..k]), t)
    requires t' == ProjectRun(step, t, heaps[k].heap + 1, heaps[k].limit)
    ensures Folded(step, start, Addresses(heaps[..k + 1]), t')
  {
    AddressesNext(heaps, k);
    FoldedRun(step, start, Addresses(heaps[..k]), heaps[k].heap + 1, heaps[k].limit, t, t');
  }

  lemma ProjectionListNext(s: seq<Slot>, heaps: seq<Segment>, k: nat, start: int, slots: seq<Slot>, index: int,
                           projection: Projection, projections: seq<Projection>)
    requires SegmentsOk(heaps, |s|) && k < |heaps| && SegmentsOk(heaps[..k], |s|)
    requires AllBelow(Addresses(heaps[..k]), |s|) && Grows(s, slots)
    requires index == start + Span(s, Addresses(heaps[..k]))
    requires projections == ProjectionList(s, heaps[..k], start)
    requires projection == Projection(heaps[k].heap, heaps[k].limit,
                                      IndexTable(slots, heaps[k], index, heaps[k].limit - heaps[k].heap))
    ensures SegmentsOk(heaps[..k + 1], |s|)
    ensures [projection] + projections == ProjectionList(s, heaps[..k + 1], start)
  {
    GrowsIndexTable(s, slots, heaps[k], index, heaps[k].limit - heaps[k].heap);
    SegmentProjectionTable(s, heaps, k, start, index);
    ProjectionListSnoc(s, heaps, k, start);
  }

  /** A segment's projection is the table of its slots, counted from where the segments
      before it end. */
  lemma SegmentProjectionTable(s: seq<Slot>, heaps: seq<Segment>, k: nat, start: int, base: int)
    requires SegmentsOk(heaps, |s|) && k < |heaps|
    requires SegmentsOk(heaps[..k], |s|) && AllBelow(Addresses(heaps[..k]), |s|)
    requires base == start + Span(s, Addresses(heaps[..k]))
    ensures SegmentProjection(s, heaps, k, start) ==
              Projection(heaps[k].heap, heaps[k].limit, IndexTable(s, heaps[k], base, heaps[k].limit - heaps[k].heap))
  {
  }

  /** What the loop holds after the first `k` segments is a well-formed arena. */
  lemma ProjectedWf(step: Step, heaps: seq<Segment>, start: Tally, k: nat, t: Tally, projections: seq<Projection>)
    requires Projected(step, heaps, start, k, t, projections)
    ensures Wf(t.slots) && |t.slots| == |start.slots|
  {
  }
}
