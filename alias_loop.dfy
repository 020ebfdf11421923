/** The two alias loops of fxPrepareHeap over the arena, proved against the folds of the
    Aliases module. */
module AliasLoop {
  import opened Slots
  import opened Prepare
  import opened Aliases

  /** The global object loses DONT_PATCH. */
  method UnfreezeGlobal(mem: array<Slot>, global: nat)
    requires global < mem.Length
    modifies mem
    ensures mem[..] == Unfreeze(old(mem[..]), global)
  {
    mem[global] := mem[global].(flag := mem[global].flag - {DontPatch});
  }

  /** The property walk of the freeze pass: an instance marked DONT_PATCH stays frozen while
      every property is DONT_DELETE and, unless an accessor, DONT_SET. */
  method IsFrozen(mem: array<Slot>, a: nat) returns (frozen: bool)
    requires Wf(mem[..]) && a < mem.Length
    ensures frozen == Frozen(mem[..], a)
  {
    ghost var s := mem[..];
    WfNext(s, a);
    frozen := DontPatch in mem[a].flag;
    if frozen {
      ghost var done: seq<nat> := [];
      var property := mem[a].next;
      while property.Ptr?
        invariant Ends(s, property) && Walk(s, s[a].next) == done + Walk(s, property)
        invariant AllBelow(done, |s|)
        invariant frozen == forall p :: p in done ==> Sealed(s[p])
        decreases |Walk(s, property)|
      {
        WalkStep(s, property.at);
        var p := property.at;
        if !mem[p].kind.Accessor? {
          if DontSet !in mem[p].flag {
            frozen := false;
          }
        }
        if DontDelete !in mem[p].flag {
          frozen := false;
        }
        done := done + [p];
        property := mem[p].next;
      }
      WalkNull(s);
      assert done + [] == done;
    }
  }

  /** One slot of the freeze loop. */
  method FreezeSlot(mem: array<Slot>, a: nat, aliasCount: nat, ghost given: seq<nat>)
    returns (aliasCount': nat, ghost given': seq<nat>)
    requires Wf(mem[..]) && a < mem.Length
    modifies mem
    ensures AliasState(mem[..], aliasCount', given') == FreezeStep(AliasState(old(mem[..]), aliasCount, given), a)
  {
    aliasCount', given' := aliasCount, given;
    if Mark !in mem[a].flag && mem[a].kind.Instance? {
      var frozen := IsFrozen(mem, a);
      if frozen {
        mem[a] := mem[a].(id := NO_ID);
      } else {
        mem[a] := mem[a].(id := aliasCount');
        aliasCount' := aliasCount' + 1;
        given' := given' + [a];
      }
    }
  }

  method FreezeNext(mem: array<Slot>, seg: Segment, slot: nat, aliasCount: nat,
                    ghost start: AliasState, ghost done: seq<nat>, ghost given: seq<nat>)
    returns (aliasCount': nat, ghost given': seq<nat>, next: nat)
    requires slot < seg.limit && Freezing(start, seg, done, slot, AliasState(mem[..], aliasCount, given))
    modifies mem
    ensures next == slot + 1
    ensures Freezing(start, seg, done, next, AliasState(mem[..], aliasCount', given'))
  {
    next := slot + 1;
    ghost var st := AliasState(mem[..], aliasCount, given);
    FreezingWf(start, seg, done, slot, st);
    aliasCount', given' := FreezeSlot(mem, slot, aliasCount, given);
    FreezingNext(start, seg, done, slot, st, AliasState(mem[..], aliasCount', given'), next);
  }

  /** The freeze loop over one segment. */
  method FreezeSegment(mem: array<Slot>, seg: Segment, aliasCount: nat,
                       ghost start: AliasState, ghost done: seq<nat>, ghost given: seq<nat>)
    returns (aliasCount': nat, ghost given': seq<nat>)
    requires Freezing(start, seg, done, seg.heap + 1, AliasState(mem[..], aliasCount, given))
    modifies mem
    ensures Freezing(start, seg, done, seg.limit, AliasState(mem[..], aliasCount', given'))
  {
    aliasCount', given' := aliasCount, given;
    var slot: nat := seg.heap + 1;
    while slot < seg.limit
      invariant Freezing(start, seg, done, slot, AliasState(mem[..], aliasCount', given'))
    {
      aliasCount', given', slot := FreezeNext(mem, seg, slot, aliasCount', start, done, given');
    }
  }

  method FreezeNextSegment(mem: array<Slot>, heaps: seq<Segment>, k: nat, aliasCount: nat,
                           ghost start: AliasState, ghost given: seq<nat>)
    returns (aliasCount': nat, ghost given': seq<nat>, next: nat)
    requires k < |heaps| && FrozenUpTo(start, heaps, k, AliasState(mem[..], aliasCount, given))
    modifies mem
    ensures next == k + 1
    ensures FrozenUpTo(start, heaps, next, AliasState(mem[..], aliasCount', given'))
  {
    ghost var done := Addresses(heaps[..k]);
    FreezingFirst(start, heaps[k], done);
    aliasCount', given' := FreezeSegment(mem, heaps[k], aliasCount, start, done, given);
    FrozenUpToNext(start, heaps, k, AliasState(old(mem[..]), aliasCount, given), AliasState(mem[..], aliasCount', given'));
    next := k + 1;
  }

  /** The freeze loop over every segment. */
  method FreezeHeaps(mem: array<Slot>, heaps: seq<Segment>, aliasCount: nat, ghost given: seq<nat>)
    returns (aliasCount': nat, ghost given': seq<nat>)
    requires Wf(mem[..]) && SegmentsOk(heaps, mem.Length)
    modifies mem
    ensures AliasState(mem[..], aliasCount', given') ==
              FreezeFold(AliasState(old(mem[..]), aliasCount, given), HeapOrder(heaps, mem.Length))
  {
    ghost var start := AliasState(mem[..], aliasCount, given);
    aliasCount', given' := aliasCount, given;
    FrozenUpToFirst(start, heaps);
    var k: nat := 0;
    while k < |heaps|
      invariant FrozenUpTo(start, heaps, k, AliasState(mem[..], aliasCount', given'))
    {
      aliasCount', given', k := FreezeNextSegment(mem, heaps, k, aliasCount', start, given');
    }
    FrozenUpToAll(start, heaps, AliasState(mem[..], aliasCount', given'));
  }

  /** One slot of the closure loop. */
  method ClosureSlot(mem: array<Slot>, a: nat, aliasCount: nat, ghost given: seq<nat>)
    returns (aliasCount': nat, ghost given': seq<nat>)
    requires Wf(mem[..]) && a < mem.Length
    modifies mem
    ensures AliasState(mem[..], aliasCount', given') == ClosureStep(AliasState(old(mem[..]), aliasCount, given), a)
  {
    aliasCount', given' := aliasCount, given;
    if Mark !in mem[a].flag && mem[a].kind.Closure? {
      assert SlotOk(|mem[..]|, mem[..][a]);
      var closure := mem[a].kind.closure.at;
      if HoldsFunction(mem[..], closure) {
        mem[closure] := mem[closure].(flag := mem[closure].flag + {DontSet});
      }
      if DontSet in mem[closure].flag {
        mem[closure] := mem[closure].(flag := mem[closure].flag + {DontDelete});
      } else {
        if mem[closure].id == NO_ID {
          mem[closure] := mem[closure].(id := aliasCount');
          aliasCount' := aliasCount' + 1;
          given' := given' + [closure];
        }
        mem[a] := mem[a].(flag := mem[a].flag - {DontSet});
      }
    }
  }

  method ClosureNext(mem: array<Slot>, seg: Segment, slot: nat, aliasCount: nat,
                     ghost start: AliasState, ghost done: seq<nat>, ghost given: seq<nat>)
    returns (aliasCount': nat, ghost given': seq<nat>, next: nat)
    requires slot < seg.limit && Closing(start, seg, done, slot, AliasState(mem[..], aliasCount, given))
    modifies mem
    ensures next == slot + 1
    ensures Closing(start, seg, done, next, AliasState(mem[..], aliasCount', given'))
  {
    next := slot + 1;
    ghost var st := AliasState(mem[..], aliasCount, given);
    ClosingWf(start, seg, done, slot, st);
    aliasCount', given' := ClosureSlot(mem, slot, aliasCount, given);
    ClosingNext(start, seg, done, slot, st, AliasState(mem[..], aliasCount', given'), next);
  }

  /** The closure loop over one segment. */
  method ClosureSegment(mem: array<Slot>, seg: Segment, aliasCount: nat,
                        ghost start: AliasState, ghost done: seq<nat>, ghost given: seq<nat>)
    returns (aliasCount': nat, ghost given': seq<nat>)
    requires Closing(start, seg, done, seg.heap + 1, AliasState(mem[..], aliasCount, given))
    modifies mem
    ensures Closing(start, seg, done, seg.limit, AliasState(mem[..], aliasCount', given'))
  {
    aliasCount', given' := aliasCount, given;
    var slot: nat := seg.heap + 1;
    while slot < seg.limit
      invariant Closing(start, seg, done, slot, AliasState(mem[..], aliasCount', given'))
    {
      aliasCount', given', slot := ClosureNext(mem, seg, slot, aliasCount', start, done, given');
    }
  }

  method ClosureNextSegment(mem: array<Slot>, heaps: seq<Segment>, k: nat, aliasCount: nat,
                            ghost start: AliasState, ghost given: seq<nat>)
    returns (aliasCount': nat, ghost given': seq<nat>, next: nat)
    requires k < |heaps| && ClosedUpTo(start, heaps, k, AliasState(mem[..], aliasCount, given))
    modifies mem
    ensures next == k + 1
    ensures ClosedUpTo(start, heaps, next, AliasState(mem[..], aliasCount', given'))
  {
    ghost var done := Addresses(heaps[..k]);
    ClosingFirst(start, heaps[k], done);
    aliasCount', given' := ClosureSegment(mem, heaps[k], aliasCount, start, done, given);
    ClosedUpToNext(start, heaps, k, AliasState(old(mem[..]), aliasCount, given), AliasState(mem[..], aliasCount', given'));
    next := k + 1;
  }

  /** The closure loop over every segment. */
  method ClosureHeaps(mem: array<Slot>, heaps: seq<Segment>, aliasCount: nat, ghost given: seq<nat>)
    returns (aliasCount': nat, ghost given': seq<nat>)
    requires Wf(mem[..]) && SegmentsOk(heaps, mem.Length)
    modifies mem
    ensures AliasState(mem[..], aliasCount', given') ==
              ClosureFold(AliasState(old(mem[..]), aliasCount, given), HeapOrder(heaps, mem.Length))
  {
    ghost var start := AliasState(mem[..], aliasCount, given);
    aliasCount', given' := aliasCount, given;
    ClosedUpToFirst(start, heaps);
    var k: nat := 0;
    while k < |heaps|
      invariant ClosedUpTo(start, heaps, k, AliasState(mem[..], aliasCount', given'))
    {
      aliasCount', given', k := ClosureNextSegment(mem, heaps, k, aliasCount', start, given');
    }
    ClosedUpToAll(start, heaps, AliasState(mem[..], aliasCount', given'));
  }

  /** The end of fxPrepareHeap: the global object unfrozen, the freeze loop and the closure
      loop, from a zero counter; the result is stored as `aliasCount`. */
  method Alias(mem: array<Slot>, heaps: seq<Segment>, global: nat) returns (aliasCount: nat)
    requires Wf(mem[..]) && SegmentsOk(heaps, mem.Length) && global < mem.Length
    modifies mem
    ensures var r := Aliasing(old(mem[..]), heaps, global);
            mem[..] == r.slots && aliasCount == r.count
  {
    ghost var s0 := mem[..];
    UnfreezeGlobal(mem, global);
    SameShapeWf(s0, mem[..]);
    ghost var given;
    aliasCount, given := FreezeHeaps(mem, heaps, 0, []);
    ghost var given2;
    aliasCount, given2 := ClosureHeaps(mem, heaps, aliasCount, []);
  }
}
