/** fxNewFunctionLength: the `length` property a function instance gets when the linker
    builds it, unless the linker is stripping. */
module Functions {
  import opened Slots

  /** The arena after the slot `added` became the `length` property that follows `property`:
      `property` now links to it, and it holds the length as an integer that is neither
      enumerable nor writable. The allocator that supplies `added` (fxNewSlot) is not part of
      this model; whatever it left in `next` stays. */
  function WithLength(s: seq<Slot>, property: nat, added: nat, lengthId: int, length: int): (r: seq<Slot>)
    requires property < |s| && added < |s| && property != added
    ensures |r| == |s|
    ensures r[property].next == Ptr(added) && r[property].id == s[property].id
    ensures r[property].flag == s[property].flag && r[property].kind == s[property].kind
    ensures r[added] == Slot(s[added].next, lengthId, {DontEnum, DontSet}, Integer(length))
    ensures forall i :: 0 <= i < |s| && i != property && i != added ==> r[i] == s[i]
  {
    s[property := s[property].(next := Ptr(added))]
     [added := s[added].(id := lengthId, flag := {DontEnum, DontSet}, kind := Integer(length))]
  }

  /** fxNewFunctionLength. When stripping, nothing changes and `property` is returned;
      otherwise the new slot `added` becomes the `length` property after `property` and is
      returned, so that the next property is added after it. */
  method NewFunctionLength(mem: array<Slot>, stripping: bool, property: nat, added: nat, lengthId: int, length: int)
    returns (last: nat)
    requires property < mem.Length && added < mem.Length && property != added
    modifies mem
    ensures stripping ==> last == property && mem[..] == old(mem[..])
    ensures !stripping ==> last == added && mem[..] == WithLength(old(mem[..]), property, added, lengthId, length)
  {
    if stripping {
      return property;
    }
    mem[property] := mem[property].(next := Ptr(added));
    mem[added] := mem[added].(id := lengthId, flag := {DontEnum, DontSet}, kind := Integer(length));
    last := added;
  }

  /** Adding the length after the last property of a list that ends at NULL, with a new slot
      that is not already in the list and whose `next` is NULL, appends exactly that slot to
      the list. */
  lemma LengthAppended(s: seq<Slot>, first: Ref, property: nat, added: nat, lengthId: int, length: int)
    requires property < |s| && added < |s| && property != added
    requires Ends(s, first) && property in Walk(s, first) && s[property].next == Null
    requires added !in Walk(s, first) && s[added].next == Null
    ensures var t := WithLength(s, property, added, lengthId, length);
            Ends(t, first) && Walk(t, first) == Walk(s, first) + [added]
  {
    var t := WithLength(s, property, added, lengthId, length);
    var f: nat :| Chain(s, first, f).Some?;
    WalkIs(s, first, f);
    ChainAppended(s, t, first, f, property, added);
    WalkIs(t, first, f + 1);
  }

  lemma {:induction false} ChainAppended(s: seq<Slot>, t: seq<Slot>, r: Ref, f: nat, property: nat, added: nat)
    requires |t| == |s| && property < |s| && added < |s|
    requires forall i :: 0 <= i < |s| && i != property && i != added ==> t[i].next == s[i].next
    requires t[property].next == Ptr(added) && t[added].next == Null && s[property].next == Null
    requires Chain(s, r, f).Some? && property in Chain(s, r, f).value && added !in Chain(s, r, f).value
    ensures Chain(t, r, f + 1) == Some(Chain(s, r, f).value + [added])
    decreases f
  {
    var a := r.at;
    var rest := Chain(s, s[a].next, f - 1);
    assert Chain(s, r, f).value == [a] + rest.value;
    if a == property {
      assert rest.value == [] && f > 0;
      assert Chain(t, t[added].next, f - 1) == Some([]);
      assert [added] + [] == [added];
      assert Chain(t, t[a].next, f) == Some([added]);
      assert Chain(s, r, f).value == [a];
    } else {
      assert property in rest.value;
      ChainAppended(s, t, s[a].next, f - 1, property, added);
      assert [a] + (rest.value + [added]) == [a] + rest.value + [added];
    }
  }
}
