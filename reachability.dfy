/** The second step of fxPrepareHeap: after the collector ran, every slot on the free list
    is marked, so that every later pass skips it. The collection itself is not modelled: the
    free list it leaves is the input. */
module Reachability {
  import opened Slots

  /** The arena with the mark bit set on every slot of `free`. */
  function MarkAll(s: seq<Slot>, free: seq<nat>): (r: seq<Slot>)
    ensures SameShape(s, r)
    ensures forall i :: 0 <= i < |s| ==>
              r[i].id == s[i].id && r[i].flag == if i in free then s[i].flag + {Mark} else s[i].flag
  {
    seq(|s|, i requires 0 <= i < |s| => if i in free then AddFlags(s[i], {Mark}) else s[i])
  }

  /** The walk of the free list from `freeHeap`, marking each slot. */
  method MarkFreeList(mem: array<Slot>, freeHeap: Ref)
    requires Ends(mem[..], freeHeap)
    modifies mem
    ensures mem[..] == MarkAll(old(mem[..]), Walk(old(mem[..]), freeHeap))
  {
    ghost var s0 := mem[..];
    ghost var done: seq<nat> := [];
    var slot := freeHeap;
    WalkNull(s0);
    while slot.Ptr?
      invariant Ends(s0, slot)
      invariant Walk(s0, freeHeap) == done + Walk(s0, slot)
      invariant mem[..] == MarkAll(s0, done)
      decreases |Walk(s0, slot)|
    {
      WalkStep(s0, slot.at);
      assert mem[slot.at].next == s0[slot.at].next;
      mem[slot.at] := mem[slot.at].(flag := mem[slot.at].flag + {Mark});
      done := done + [slot.at];
      slot := mem[slot.at].next;
    }
    WalkNull(s0);
    assert done + [] == done;
  }

  /** Marking keeps the heap well formed, and exactly the free slots are now marked. */
  lemma MarkAllWf(s: seq<Slot>, free: seq<nat>)
    requires Wf(s)
    ensures Wf(MarkAll(s, free))
    ensures forall i :: 0 <= i < |s| && i in free ==> Mark in MarkAll(s, free)[i].flag
  {
    SameShapeWf(s, MarkAll(s, free));
  }
}
