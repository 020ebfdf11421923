/** Where fxPrintSlot puts each BigInt's words: every BigInt record of the generated heap
    gets the BigInt total so far as its offset into gxBigIntData, and its words are copied
    there, so the record reads back exactly the words of the slot it came from. */
module WriterWords {
  import opened Slots
  import opened Projection
  import opened Resolve
  import opened Writer

  /** Copying more words after the ones a record points at leaves its words in place. */
  lemma PlacedGrows(s: seq<Slot>, r: Record, words: seq<int>, more: seq<int>, start: int)
    requires Placed(s, r, words, start) && words <= more
    ensures Placed(s, r, more, start)
  {
    if r.SlotRecord? && r.payload.BigIntWords? {
      var o := r.payload.offset - start;
      assert more[o..o + r.payload.size] == words[o..o + r.payload.size];
    }
  }

  /** fxPrintSlot gives a BigInt the current total as its offset and copies its words
      there; every other record is left pointing where it did. */
  lemma {:induction false} SlotPlaced(ps: seq<Projection>, s: seq<Slot>, pen: Pen, from: Source, x: Slot, start: int)
    requires ProjectionsOk(ps) && WordsPlaced(s, pen, start)
    requires from.slot < |s| && x.kind == s[from.slot].kind && SlotOk(|s|, s[from.slot])
    ensures WordsPlaced(s, PrintSlot(ps, pen, from, x), start)
  {
    var r := PrintSlot(ps, pen, from, x);
    var n := |pen.records|;
    assert pen.words <= r.words && r.bigintSize == start + |r.words| && r.records[..n] == pen.records;
    forall i | 0 <= i < |r.records| ensures Placed(s, r.records[i], r.words, start) {
      if i < n {
        assert r.records[i] == pen.records[i];
        PlacedGrows(s, pen.records[i], pen.words, r.words, start);
      } else if x.kind.BigInt? || x.kind.BigIntX? {
        assert r.words == pen.words + x.kind.data;
        assert r.words[|pen.words|..|pen.words| + x.kind.size] == x.kind.data;
      }
    }
  }

  /** A chain of pens in which each step keeps the words placed keeps them placed to its
      end. */
  lemma {:induction false} PlacedChain(chain: nat -> Pen, s: seq<Slot>, start: int, lo: nat, hi: nat)
    requires lo <= hi && WordsPlaced(s, chain(lo), start)
    requires forall k :: lo <= k < hi && WordsPlaced(s, chain(k), start) ==> WordsPlaced(s, chain(k + 1), start)
    ensures WordsPlaced(s, chain(hi), start)
    decreases hi
  {
    if lo < hi {
      PlacedChain(chain, s, start, lo, hi - 1);
    }
  }

  /** The elements of an array, each printed by fxPrintSlot. */
  lemma ElementsPlaced(ps: seq<Projection>, s: seq<Slot>, pen: Pen, base: nat, n: nat, start: int)
    requires ProjectionsOk(ps) && SlotsOk(s) && base + n <= |s| && WordsPlaced(s, pen, start)
    ensures WordsPlaced(s, PrintElements(ps, s, pen, base, n), start)
  {
    var chain := (k: nat) => if base + k <= |s| then PrintElements(ps, s, pen, base, k) else pen;
    forall k | 0 <= k < n && WordsPlaced(s, chain(k), start) ensures WordsPlaced(s, chain(k + 1), start) {
      SlotPlaced(ps, s, chain(k), InChunk(base + k), Debugged(s[base + k]), start);
    }
    PlacedChain(chain, s, start, 0, n);
  }

  /** Records holding no BigInt leave every word where it was. */
  lemma AppendPlaced(s: seq<Slot>, pen: Pen, more: seq<Record>, index: int, start: int)
    requires WordsPlaced(s, pen, start)
    requires forall i :: 0 <= i < |more| ==> !(more[i].SlotRecord? && more[i].payload.BigIntWords?)
    ensures WordsPlaced(s, Pen(pen.records + more, index, pen.bigintSize, pen.words), start)
  {
    var r := pen.records + more;
    forall i | 0 <= i < |r| ensures Placed(s, r[i], pen.words, start) {
      if i < |pen.records| {
        assert r[i] == pen.records[i];
      } else {
        assert r[i] == more[i - |pen.records|];
      }
    }
  }

  /** An array's own record and its chunk header hold no BigInt; its elements are printed
      as slots. */
  lemma {:induction false} ArrayPlaced(ps: seq<Projection>, s: seq<Slot>, pen: Pen, a: nat, start: int)
    requires ProjectionsOk(ps) && SlotsOk(s) && a < |s| && WordsPlaced(s, pen, start)
    requires Mark !in s[a].flag && s[a].kind.Array? && s[a].kind.address.Ptr?
    ensures WordsPlaced(s, PrintArray(ps, s, pen, a), start)
  {
    var x := s[a];
    assert SlotOk(|s|, x);
    var head := SlotRecord(pen.index, InHeap(a), Resolved(Address(ps, x.next)), PrintID(x.id), x.flag + {Mark},
                           Storage(pen.index + 2, x.kind.length));
    var chunk := ChunkHeader(pen.index + 1, x.kind.count);
    var started := Pen(pen.records + [head, chunk], pen.index + 2, pen.bigintSize, pen.words);
    assert WordsPlaced(s, started, start) by {
      AppendPlaced(s, pen, [head, chunk], pen.index + 2, start);
    }
    assert WordsPlaced(s, PrintElements(ps, s, started, x.kind.address.at, x.kind.count), start) by {
      ElementsPlaced(ps, s, started, x.kind.address.at, x.kind.count, start);
    }
  }

  /** One slot of the writer's loop. */
  lemma {:induction false} VisitPlaced(ps: seq<Projection>, s: seq<Slot>, pen: Pen, a: nat, start: int)
    requires ProjectionsOk(ps) && SlotsOk(s) && a < |s| && WordsPlaced(s, pen, start)
    ensures WordsPlaced(s, PrintVisit(ps, s, pen, a), start)
  {
    var x := s[a];
    if Mark in x.flag {
    } else if x.kind.Array? && x.kind.address.Ptr? {
      ArrayPlaced(ps, s, pen, a, start);
    } else {
      SlotPlaced(ps, s, pen, InHeap(a), x, start);
    }
  }

  /** The slots of a run, in position order. */
  lemma RunPlaced(ps: seq<Projection>, s: seq<Slot>, pen: Pen, lo: nat, hi: nat, start: int)
    requires ProjectionsOk(ps) && SlotsOk(s) && hi <= |s| && WordsPlaced(s, pen, start)
    ensures WordsPlaced(s, PrintRun(ps, s, pen, lo, hi), start)
  {
    if lo < hi {
      var chain := (k: nat) => if k <= |s| then PrintRun(ps, s, pen, lo, k) else pen;
      assert chain(lo) == pen;
      forall k | lo <= k < hi && WordsPlaced(s, chain(k), start) ensures WordsPlaced(s, chain(k + 1), start) {
        VisitPlaced(ps, s, chain(k), k, start);
      }
      PlacedChain(chain, s, start, lo, hi);
    }
  }

  /** The first n segments of `order`. */
  lemma {:induction false} SegmentsPlaced(ps: seq<Projection>, s: seq<Slot>, pen: Pen, order: seq<Projection>, n: nat, start: int)
    requires ProjectionsOk(ps) && SlotsOk(s) && InArena(order, |s|) && n <= |order| && WordsPlaced(s, pen, start)
    ensures WordsPlaced(s, PrintSegments(ps, s, pen, order, n), start)
    decreases n
  {
    if n > 0 {
      var before := PrintSegments(ps, s, pen, order, n - 1);
      assert WordsPlaced(s, before, start) by {
        SegmentsPlaced(ps, s, pen, order, n - 1, start);
      }
      RunPlaced(ps, s, before, order[n - 1].heap + 1, order[n - 1].limit, start);
    }
  }

  /** Whatever order the segments are walked in, the generated heap's BigInt total ends
      `bigintStart` plus the words copied to gxBigIntData, and every BigInt record reads back
      the words of the slot it came from. */
  lemma {:induction false} HeapPlaced(ps: seq<Projection>, s: seq<Slot>, count: int, bigintStart: int, order: seq<Projection>)
    requires ProjectionsOk(ps) && SlotsOk(s) && InArena(order, |s|)
    ensures WordsPlaced(s, PrintHeapIn(ps, s, count, bigintStart, order), bigintStart)
  {
    var start := Pen([HeapHeader(0, count)], 1, bigintStart, []);
    assert WordsPlaced(s, start, bigintStart);
    var body := PrintSegments(ps, s, start, order, |order|);
    assert WordsPlaced(s, body, bigintStart) by {
      SegmentsPlaced(ps, s, start, order, |order|, bigintStart);
    }
    AppendPlaced(s, body, [HeapEnd(body.index)], body.index + 1, bigintStart);
  }

  /** The heap fxPrintHeap writes, walked either way, places every BigInt's words. */
  lemma {:induction false} PrintedHeapPlaced(ps: seq<Projection>, s: seq<Slot>, count: int, bigintStart: int)
    requires ProjectionsOk(ps) && SlotsOk(s) && InArena(ps, |s|)
    ensures WordsPlaced(s, PrintedHeap(ps, s, count, bigintStart), bigintStart)
    ensures WordsPlaced(s, PrintedHeapAsWritten(ps, s, count, bigintStart), bigintStart)
  {
    assert InArena(Reversed(ps), |s|);
    HeapPlaced(ps, s, count, bigintStart, Reversed(ps));
    HeapPlaced(ps, s, count, bigintStart, ps);
  }
}
