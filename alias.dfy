/** The two alias passes at the end of fxPrepareHeap. The global object is made patchable;
    then every live instance that is not frozen takes the next alias id, and every live
    closure either finds its captured variable read-only or gives that variable an alias id.
    `aliasCount` ends as the number of alias ids handed out. */
module Aliases {
  import opened Slots
  import opened Prepare

  /** A property an instance cannot change: DONT_DELETE, and DONT_SET unless it is an accessor. */
  predicate Sealed(x: Slot) {
    DontDelete in x.flag && (x.kind.Accessor? || DontSet in x.flag)
  }

  /** An instance the linker can share read-only: DONT_PATCH, every property sealed. */
  ghost predicate Frozen(s: seq<Slot>, a: nat)
    requires Wf(s) && a < |s|
  {
    DontPatch in s[a].flag && forall p {:trigger Sealed(s[p])} :: p in Props(s, a) ==> Sealed(s[p])
  }

  /** A live instance that is not frozen: the freeze pass gives it an alias id. */
  ghost predicate Mutable(s: seq<Slot>, a: nat)
    requires Wf(s) && a < |s|
  {
    Mark !in s[a].flag && s[a].kind.Instance? && !Frozen(s, a)
  }

  /** The slots of `xs` that are mutable instances, in visit order. */
  ghost function MutableIn(s: seq<Slot>, xs: seq<nat>): (r: seq<nat>)
    requires Wf(s) && AllBelow(xs, |s|)
    ensures forall x {:trigger x in r} :: x in r ==> x in xs && Mutable(s, x)
    ensures forall x {:trigger Mutable(s, x)} :: x in xs && Mutable(s, x) ==> x in r
    ensures AllBelow(r, |s|)
    decreases |xs|
  {
    if xs == [] then []
    else
      var m := |xs| - 1;
      assert forall x :: x in xs <==> x in xs[..m] || x == xs[m];
      MutableIn(s, xs[..m]) + if Mutable(s, xs[m]) then [xs[m]] else []
  }

  /** `t` is `s` with ids changed and nothing else. */
  predicate IdsOnly(s: seq<Slot>, t: seq<Slot>) {
    && |s| == |t|
    && forall i {:trigger IdOnlyAt(s, t, i)} :: 0 <= i < |s| ==> IdOnlyAt(s, t, i)
  }

  predicate IdOnlyAt(s: seq<Slot>, t: seq<Slot>, i: nat)
    requires i < |s| && i < |t|
  {
    t[i] == s[i].(id := t[i].id)
  }

  lemma IdsOnlyWf(s: seq<Slot>, t: seq<Slot>)
    requires Wf(s) && IdsOnly(s, t)
    ensures Wf(t) && SameShape(s, t)
    ensures forall i :: 0 <= i < |s| ==> t[i].flag == s[i].flag
  {
    forall i | 0 <= i < |s| ensures t[i].next == s[i].next && t[i].kind == s[i].kind && t[i].flag == s[i].flag {
      assert IdOnlyAt(s, t, i);
    }
    SameShapeWf(s, t);
  }

  lemma IdsOnlyTrans(s: seq<Slot>, t: seq<Slot>, u: seq<Slot>)
    requires IdsOnly(s, t) && IdsOnly(t, u)
    ensures IdsOnly(s, u)
  {
    forall i | 0 <= i < |s| ensures IdOnlyAt(s, u, i) {
      assert IdOnlyAt(s, t, i) && IdOnlyAt(t, u, i);
    }
  }

  /** Changing ids does not change which instances are frozen or mutable. */
  lemma MutableIdsOnly(s: seq<Slot>, t: seq<Slot>, a: nat)
    requires Wf(s) && IdsOnly(s, t) && a < |s|
    ensures Wf(t) && Frozen(t, a) == Frozen(s, a) && Mutable(t, a) == Mutable(s, a)
  {
    IdsOnlyWf(s, t);
    WfNext(s, a);
    WalkSameNexts(s, t, s[a].next);
    forall p | 0 <= p < |s| ensures Sealed(t[p]) == Sealed(s[p]) {
      assert IdOnlyAt(s, t, p);
    }
  }

  /** The global object loses DONT_PATCH, so that it is never frozen. */
  function Unfreeze(s: seq<Slot>, global: nat): (r: seq<Slot>)
    requires global < |s|
    ensures SameShape(s, r)
    ensures DontPatch !in r[global].flag && r[global].flag + {DontPatch} == s[global].flag + {DontPatch}
    ensures forall i :: 0 <= i < |s| && i != global ==> r[i] == s[i]
    ensures r[global].id == s[global].id
  {
    s[global := s[global].(flag := s[global].flag - {DontPatch})]
  }

  // ------------------------------------------------------------------ the two passes

  /** The arena, the alias counter, and the slots given an alias id so far, in order. */
  datatype AliasState = AliasState(slots: seq<Slot>, count: nat, given: seq<nat>)

  /** One slot of the freeze pass: a live instance takes XS_NO_ID when frozen and the next
      alias id otherwise. */
  ghost function FreezeStep(st: AliasState, a: nat): (r: AliasState)
    requires Wf(st.slots) && a < |st.slots|
    ensures IdsOnly(st.slots, r.slots) && Wf(r.slots)
    ensures forall i :: 0 <= i < |st.slots| && i != a ==> r.slots[i] == st.slots[i]
    ensures var tail := if Mutable(st.slots, a) then [a] else [];
            r.given == st.given + tail && r.count == st.count + |tail|
  {
    var x := st.slots[a];
    var r :=
      if Mark in x.flag || !x.kind.Instance? then st
      else if Frozen(st.slots, a) then AliasState(st.slots[a := x.(id := NO_ID)], st.count, st.given)
      else AliasState(st.slots[a := x.(id := st.count)], st.count + 1, st.given + [a]);
    assert IdsOnly(st.slots, r.slots) by {
      forall i | 0 <= i < |st.slots| ensures IdOnlyAt(st.slots, r.slots, i) {}
    }
    IdsOnlyWf(st.slots, r.slots);
    r
  }

  /** The closure slot `c` holds a reference whose target's first property is a function
      record. */
  predicate HoldsFunction(s: seq<Slot>, c: nat) {
    && c < |s| && s[c].kind.Reference? && s[c].kind.target.Ptr? && s[c].kind.target.at < |s|
    && var internal := s[s[c].kind.target.at].next;
       internal.Ptr? && internal.at < |s| && IsFunctionKind(s[internal.at].kind)
  }

  /** A live closure slot. */
  predicate LiveClosure(s: seq<Slot>, a: nat) {
    a < |s| && Mark !in s[a].flag && s[a].kind.Closure? && s[a].kind.closure.Ptr?
  }

  /** A captured variable the linked program can reach: it cannot be deleted, or it has an
      alias id. */
  predicate Covered(s: seq<Slot>, c: nat) {
    c < |s| && (DontDelete in s[c].flag || s[c].id != NO_ID)
  }

  /** `t` keeps every alias id, every DONT_DELETE and every mark of `s`. */
  predicate Keeps(s: seq<Slot>, t: seq<Slot>) {
    && SameShape(s, t)
    && forall i {:trigger KeepsAt(s, t, i)} :: 0 <= i < |s| ==> KeepsAt(s, t, i)
  }

  predicate KeepsAt(s: seq<Slot>, t: seq<Slot>, i: nat)
    requires i < |s| && i < |t|
  {
    && (s[i].id != NO_ID ==> t[i].id == s[i].id)
    && (DontDelete in s[i].flag ==> DontDelete in t[i].flag)
    && (Mark in t[i].flag <==> Mark in s[i].flag)
  }

  lemma KeepsTrans(s: seq<Slot>, t: seq<Slot>, u: seq<Slot>)
    requires Keeps(s, t) && Keeps(t, u)
    ensures Keeps(s, u)
  {
    forall i | 0 <= i < |s| ensures KeepsAt(s, u, i) {
      assert KeepsAt(s, t, i) && KeepsAt(t, u, i);
    }
  }

  /** One slot of the closure pass. A captured variable that references a function becomes
      DONT_SET; a DONT_SET variable then becomes DONT_DELETE too; any other variable takes
      the next alias id if it has none, and the closure slot loses DONT_SET. */
  function ClosureStep(st: AliasState, a: nat): (r: AliasState)
    requires Wf(st.slots) && a < |st.slots|
    ensures SameShape(st.slots, r.slots)
    ensures !LiveClosure(st.slots, a) ==> r == st
    ensures LiveClosure(st.slots, a) ==>
              var s := st.slots;
              var c := s[a].kind.closure.at;
              && c < |s|
              && (forall i :: 0 <= i < |s| && i != a && i != c ==> r.slots[i] == s[i])
              && if DontSet in s[c].flag || HoldsFunction(s, c) then
                   // a variable that cannot be set: DONT_DELETE as well, and no alias id
                   && r.slots[c] == AddFlags(s[c], {DontSet, DontDelete})
                   && (a != c ==> r.slots[a] == s[a])
                   && r.given == st.given && r.count == st.count
                 else
                   // a settable variable: the closure slot loses DONT_SET and the variable
                   // takes the next alias id unless it has one
                   && DontSet !in r.slots[a].flag && DontSet !in r.slots[c].flag
                   && r.slots[a].flag == s[a].flag - {DontSet} && r.slots[c].flag == s[c].flag - {DontSet}
                   && (a != c ==> r.slots[a].id == s[a].id)
                   && if s[c].id == NO_ID then
                        r.given == st.given + [c] && r.count == st.count + 1 && r.slots[c].id == st.count
                      else
                        r.given == st.given && r.count == st.count && r.slots[c].id == s[c].id
  {
    var s := st.slots;
    var x := s[a];
    if Mark in x.flag || !x.kind.Closure? then st
    else
      assert SlotOk(|s|, x);
      var c := x.kind.closure.at;
      var y := if HoldsFunction(s, c) then AddFlags(s[c], {DontSet}) else s[c];
      var r :=
        if DontSet in y.flag then AliasState(s[c := AddFlags(y, {DontDelete})], st.count, st.given)
        else
          var unaliased := y.id == NO_ID;
          var t := s[c := if unaliased then y.(id := st.count) else y];
          AliasState(t[a := t[a].(flag := t[a].flag - {DontSet})],
                     if unaliased then st.count + 1 else st.count,
                     if unaliased then st.given + [c] else st.given);
      assert SameShape(s, r.slots);
      r
  }

  /** A step of the closure pass keeps every alias id, every DONT_DELETE and every mark. */
  lemma ClosureStepKeeps(st: AliasState, a: nat)
    requires Wf(st.slots) && a < |st.slots|
    ensures Keeps(st.slots, ClosureStep(st, a).slots)
  {
    assert SlotOk(|st.slots|, st.slots[a]);
    var r := ClosureStep(st, a);
    forall i | 0 <= i < |st.slots| ensures KeepsAt(st.slots, r.slots, i) {}
  }

  /** After the step of a live closure, its captured variable cannot be deleted or has an
      alias id; when it references a function it is DONT_SET and DONT_DELETE, and its id is
      unchanged. */
  lemma ClosureStepCovers(st: AliasState, a: nat)
    requires Wf(st.slots) && LiveClosure(st.slots, a)
    ensures var r := ClosureStep(st, a);
            var c := st.slots[a].kind.closure.at;
            && Covered(r.slots, c)
            && (HoldsFunction(st.slots, c) ==>
                  DontSet in r.slots[c].flag && DontDelete in r.slots[c].flag && r.slots[c].id == st.slots[c].id)
  {
    assert SlotOk(|st.slots|, st.slots[a]);
  }

  /** The step of a live closure gives an alias id at most to its captured variable. */
  lemma ClosureStepIds(st: AliasState, a: nat)
    requires Wf(st.slots) && LiveClosure(st.slots, a)
    ensures IdStep(st, ClosureStep(st, a), st.slots[a].kind.closure.at)
  {
    assert SlotOk(|st.slots|, st.slots[a]);
  }

  /** From `st` to `r` at most the slot `c` takes an alias id: the next one, and only if it
      had none. */
  predicate IdStep(st: AliasState, r: AliasState, c: nat) {
    && c < |st.slots| == |r.slots|
    && (forall i :: 0 <= i < |st.slots| && i != c ==> r.slots[i].id == st.slots[i].id)
    && if r.given == st.given then r.count == st.count && r.slots[c].id == st.slots[c].id
       else r.given == st.given + [c] && r.count == st.count + 1 && st.slots[c].id == NO_ID && r.slots[c].id == st.count
  }

  /** The freeze pass over the slots `xs`, in order. */
  ghost function FreezeFold(st: AliasState, xs: seq<nat>): (r: AliasState)
    requires Wf(st.slots) && AllBelow(xs, |st.slots|)
    ensures SameShape(st.slots, r.slots) && Wf(r.slots)
    decreases |xs|
  {
    if xs == [] then st
    else
      var m := |xs| - 1;
      var u := FreezeFold(st, xs[..m]);
      var r := FreezeStep(u, xs[m]);
      IdsOnlyWf(u.slots, r.slots);
      r
  }

  /** One more slot visited, as the loop state of the pass records it. */
  lemma FreezeFoldNext(start: AliasState, visited: seq<nat>, visited': seq<nat>, a: nat, st: AliasState, st': AliasState)
    requires Wf(start.slots) && AllBelow(visited, |start.slots|) && a < |start.slots|
    requires visited' == visited + [a] && FreezeFold(start, visited) == st && st' == FreezeStep(st, a)
    ensures AllBelow(visited', |start.slots|) && FreezeFold(start, visited') == st'
  {
    FreezeFoldSnoc(start, visited, a);
  }

  lemma FreezeFoldSnoc(st: AliasState, xs: seq<nat>, a: nat)
    requires Wf(st.slots) && AllBelow(xs, |st.slots|) && a < |st.slots|
    ensures AllBelow(xs + [a], |st.slots|)
    ensures FreezeFold(st, xs + [a]) == FreezeStep(FreezeFold(st, xs), a)
  {
    assert (xs + [a])[..|xs|] == xs;
  }

  /** The closure pass over the slots `xs`, in order. */
  function ClosureFold(st: AliasState, xs: seq<nat>): (r: AliasState)
    requires Wf(st.slots) && AllBelow(xs, |st.slots|)
    ensures SameShape(st.slots, r.slots) && Wf(r.slots)
    decreases |xs|
  {
    if xs == [] then st
    else
      var m := |xs| - 1;
      var u := ClosureFold(st, xs[..m]);
      var r := ClosureStep(u, xs[m]);
      SameShapeWf(u.slots, r.slots);
      r
  }

  /** One more slot visited, as the loop state of the pass records it. */
  lemma ClosureFoldNext(start: AliasState, visited: seq<nat>, visited': seq<nat>, a: nat, st: AliasState, st': AliasState)
    requires Wf(start.slots) && AllBelow(visited, |start.slots|) && a < |start.slots|
    requires visited' == visited + [a] && ClosureFold(start, visited) == st && st' == ClosureStep(st, a)
    ensures AllBelow(visited', |start.slots|) && ClosureFold(start, visited') == st'
  {
    ClosureFoldSnoc(start, visited, a);
  }

  lemma ClosureFoldSnoc(st: AliasState, xs: seq<nat>, a: nat)
    requires Wf(st.slots) && AllBelow(xs, |st.slots|) && a < |st.slots|
    ensures AllBelow(xs + [a], |st.slots|)
    ensures ClosureFold(st, xs + [a]) == ClosureStep(ClosureFold(st, xs), a)
  {
    assert (xs + [a])[..|xs|] == xs;
  }

  // ------------------------------------------------------------------ what the freeze pass does

  /** The freeze pass changes ids only, and only of the slots it visits. */
  lemma {:induction false} FreezeFoldShape(st: AliasState, xs: seq<nat>)
    requires Wf(st.slots) && AllBelow(xs, |st.slots|)
    ensures var r := FreezeFold(st, xs);
            && IdsOnly(st.slots, r.slots)
            && forall i {:trigger r.slots[i]} :: 0 <= i < |st.slots| && i !in xs ==> r.slots[i] == st.slots[i]
    decreases |xs|
  {
    var s := st.slots;
    if xs == [] {
      assert IdsOnly(s, s) by {
        forall i | 0 <= i < |s| ensures IdOnlyAt(s, s, i) {}
      }
    } else {
      var n := |xs| - 1;
      FreezeFoldShape(st, xs[..n]);
      var u := FreezeFold(st, xs[..n]);
      IdsOnlyTrans(s, u.slots, FreezeStep(u, xs[n]).slots);
      assert forall i :: i in xs[..n] ==> i in xs;
    }
  }

  /** The freeze pass over distinct slots: the mutable instances among them are listed as
      given, in visit order, and the counter grows by their number. */
  lemma {:induction false} FreezeFoldGiven(st: AliasState, xs: seq<nat>)
    requires Wf(st.slots) && AllBelow(xs, |st.slots|) && NoDup(xs)
    ensures var r := FreezeFold(st, xs);
            var m := MutableIn(st.slots, xs);
            r.given == st.given + m && r.count == st.count + |m|
    decreases |xs|
  {
    if xs != [] {
      var n := |xs| - 1;
      var front, a := xs[..n], xs[n];
      assert NoDup(front);
      FreezeFoldGiven(st, front);
      FreezeFoldShape(st, front);
      var u := FreezeFold(st, front);
      assert a !in front;
      assert u.slots[a] == st.slots[a];
      MutableIdsOnly(st.slots, u.slots, a);
      var m0 := MutableIn(st.slots, front);
      var tail := if Mutable(st.slots, a) then [a] else [];
      assert MutableIn(st.slots, xs) == m0 + tail;
      var r := FreezeStep(u, a);
      assert FreezeFold(st, xs) == r;
      assert r.given == u.given + tail && r.count == u.count + |tail|;
      GivenNext(st.given, m0, tail);
    }
  }

  lemma GivenNext(given: seq<nat>, m0: seq<nat>, tail: seq<nat>)
    ensures given + m0 + tail == given + (m0 + tail)
  {
  }

  /** The mutable instance listed j-th takes the alias id count + j. */
  lemma {:induction false} FreezeFoldIds(st: AliasState, xs: seq<nat>)
    requires Wf(st.slots) && AllBelow(xs, |st.slots|) && NoDup(xs)
    ensures var r := FreezeFold(st, xs);
            var m := MutableIn(st.slots, xs);
            forall j :: 0 <= j < |m| ==> r.slots[m[j]].id == st.count + j
    decreases |xs|
  {
    if xs != [] {
      var s := st.slots;
      var n := |xs| - 1;
      var front, a := xs[..n], xs[n];
      assert NoDup(front);
      FreezeFoldIds(st, front);
      FreezeFoldGiven(st, front);
      FreezeFoldShape(st, front);
      var u := FreezeFold(st, front);
      var r := FreezeStep(u, a);
      assert a !in front;
      assert u.slots[a] == s[a];
      MutableIdsOnly(s, u.slots, a);
      var m0 := MutableIn(s, front);
      var m := MutableIn(s, xs);
      assert m == m0 + if Mutable(s, a) then [a] else [];
      forall j | 0 <= j < |m| ensures r.slots[m[j]].id == st.count + j {
        if j < |m0| {
          assert m[j] == m0[j] && m0[j] in m0;
        }
      }
    }
  }

  /** A frozen live instance the pass visits ends with XS_NO_ID. */
  lemma {:induction false} FreezeFoldFrozen(st: AliasState, xs: seq<nat>)
    requires Wf(st.slots) && AllBelow(xs, |st.slots|) && NoDup(xs)
    ensures var r := FreezeFold(st, xs);
            forall i {:trigger Frozen(st.slots, i)} ::
              i in xs && Mark !in st.slots[i].flag && st.slots[i].kind.Instance? && Frozen(st.slots, i) ==>
              r.slots[i].id == NO_ID
    decreases |xs|
  {
    if xs != [] {
      var s := st.slots;
      var n := |xs| - 1;
      var front, a := xs[..n], xs[n];
      assert NoDup(front);
      FreezeFoldFrozen(st, front);
      FreezeFoldShape(st, front);
      var u := FreezeFold(st, front);
      var r := FreezeStep(u, a);
      assert a !in front;
      assert u.slots[a] == s[a];
      MutableIdsOnly(s, u.slots, a);
      forall i {:trigger Frozen(s, i)} | i in xs && Mark !in s[i].flag && s[i].kind.Instance? && Frozen(s, i)
        ensures r.slots[i].id == NO_ID
      {
        if i != a {
          assert i in front;
        }
      }
    }
  }

  // ------------------------------------------------------------------ what the closure pass does

  /** The ids handed out since `s0`, when the counter stood at `c0`: slot `given[j]` had none in
      `s0` and now has c0 + j, and every other slot keeps its id. */
  ghost predicate Handed(s0: seq<Slot>, c0: nat, st: AliasState) {
    && |st.slots| == |s0| && st.count == c0 + |st.given|
    && NoDup(st.given) && AllBelow(st.given, |s0|)
    && (forall j :: 0 <= j < |st.given| ==> s0[st.given[j]].id == NO_ID && st.slots[st.given[j]].id == c0 + j)
    && (forall i :: 0 <= i < |s0| && i !in st.given ==> st.slots[i].id == s0[i].id)
  }

  lemma ClosureStepHanded(s0: seq<Slot>, c0: nat, st: AliasState, a: nat)
    requires Wf(st.slots) && a < |st.slots| && Handed(s0, c0, st)
    ensures Handed(s0, c0, ClosureStep(st, a))
  {
    var r := ClosureStep(st, a);
    if LiveClosure(st.slots, a) {
      ClosureStepIds(st, a);
      HandedNext(s0, c0, st, r, st.slots[a].kind.closure.at);
    }
  }

  lemma HandedNext(s0: seq<Slot>, c0: nat, st: AliasState, r: AliasState, c: nat)
    requires Handed(s0, c0, st) && IdStep(st, r, c)
    ensures Handed(s0, c0, r)
  {
    if r.given != st.given {
      assert c !in st.given by {
        forall j | 0 <= j < |st.given| ensures st.given[j] != c {
          assert st.slots[st.given[j]].id == c0 + j;
        }
      }
      forall j | 0 <= j < |r.given| ensures s0[r.given[j]].id == NO_ID && r.slots[r.given[j]].id == c0 + j {
        if j < |st.given| {
          assert r.given[j] == st.given[j];
        }
      }
    }
  }

  /** The closure pass hands out ids only to slots that had none, one per slot, consecutively
      from the counter, and changes no other id. */
  lemma {:induction false} ClosureFoldHanded(s0: seq<Slot>, c0: nat, st: AliasState, xs: seq<nat>)
    requires Wf(st.slots) && AllBelow(xs, |st.slots|) && Handed(s0, c0, st)
    ensures Handed(s0, c0, ClosureFold(st, xs))
    decreases |xs|
  {
    if xs != [] {
      var m := |xs| - 1;
      ClosureFoldHanded(s0, c0, st, xs[..m]);
      ClosureStepHanded(s0, c0, ClosureFold(st, xs[..m]), xs[m]);
    }
  }

  /** The closure pass keeps every alias id, every DONT_DELETE and every mark. */
  lemma {:induction false} ClosureFoldKeeps(st: AliasState, xs: seq<nat>)
    requires Wf(st.slots) && AllBelow(xs, |st.slots|)
    ensures Keeps(st.slots, ClosureFold(st, xs).slots)
    decreases |xs|
  {
    var s := st.slots;
    if xs == [] {
      forall i | 0 <= i < |s| ensures KeepsAt(s, s, i) {}
    } else {
      var n := |xs| - 1;
      ClosureFoldKeeps(st, xs[..n]);
      var u := ClosureFold(st, xs[..n]);
      ClosureStepKeeps(u, xs[n]);
      KeepsTrans(s, u.slots, ClosureStep(u, xs[n]).slots);
    }
  }

  /** After the closure pass, the variable captured by each live closure it visited cannot be
      deleted or has an alias id. */
  lemma {:induction false} ClosureFoldCovers(st: AliasState, xs: seq<nat>)
    requires Wf(st.slots) && AllBelow(xs, |st.slots|)
    ensures var r := ClosureFold(st, xs);
            forall i {:trigger LiveClosure(st.slots, i)} ::
              i in xs && LiveClosure(st.slots, i) ==> Covered(r.slots, st.slots[i].kind.closure.at)
    decreases |xs|
  {
    var s := st.slots;
    if xs != [] {
      var n := |xs| - 1;
      var front, a := xs[..n], xs[n];
      ClosureFoldCovers(st, front);
      ClosureFoldKeeps(st, front);
      var u := ClosureFold(st, front);
      var r := ClosureStep(u, a);
      assert r == ClosureFold(st, xs);
      ClosureStepKeeps(u, a);
      if LiveClosure(u.slots, a) {
        ClosureStepCovers(u, a);
      }
      assert xs == front + [a];
      forall i | i in xs && LiveClosure(s, i) ensures Covered(r.slots, s[i].kind.closure.at) {
        CoveredNext(s, u.slots, r.slots, front, a, i);
      }
    }
  }

  /** A live closure whose captured variable is not itself a closure slot. */
  predicate CapturesVariable(s: seq<Slot>, a: nat) {
    LiveClosure(s, a) && s[a].kind.closure.at < |s| && !s[s[a].kind.closure.at].kind.Closure?
  }

  /** The closure at `a` and its variable at `c` are settled: the variable is DONT_SET and
      DONT_DELETE, or it has an alias id and the closure slot is not DONT_SET. */
  predicate Settled(s: seq<Slot>, a: nat, c: nat) {
    && a < |s| && c < |s|
    && ((DontSet in s[c].flag && DontDelete in s[c].flag) || (s[c].id != NO_ID && DontSet !in s[a].flag))
  }

  /** A step of the closure pass sets DONT_SET only on slots that are not closures, and clears
      it only on closure slots. */
  lemma ClosureStepDontSet(st: AliasState, a: nat)
    requires Wf(st.slots) && a < |st.slots|
    ensures var s, r := st.slots, ClosureStep(st, a).slots;
            forall i :: 0 <= i < |s| ==>
              if s[i].kind.Closure? then DontSet in r[i].flag ==> DontSet in s[i].flag
              else DontSet in s[i].flag ==> DontSet in r[i].flag
  {
  }

  /** After the closure pass, every visited live closure whose variable is not a closure slot
      is settled with its variable: a variable that cannot be set (already DONT_SET, or
      referencing a function) is DONT_SET and DONT_DELETE, and any other one has an alias id
      while its closure slot is no longer DONT_SET. */
  lemma {:induction false} ClosureFoldSettles(st: AliasState, xs: seq<nat>)
    requires Wf(st.slots) && AllBelow(xs, |st.slots|)
    ensures var r := ClosureFold(st, xs);
            forall i {:trigger CapturesVariable(st.slots, i)} ::
              i in xs && CapturesVariable(st.slots, i) ==> Settled(r.slots, i, st.slots[i].kind.closure.at)
    decreases |xs|
  {
    var s := st.slots;
    if xs != [] {
      var n := |xs| - 1;
      var front, a := xs[..n], xs[n];
      assert xs == front + [a];
      ClosureFoldSettles(st, front);
      ClosureFoldKeeps(st, front);
      var u := ClosureFold(st, front);
      var r := ClosureStep(u, a);
      assert r == ClosureFold(st, xs);
      ClosureStepKeeps(u, a);
      ClosureStepDontSet(u, a);
      forall i | i in xs && CapturesVariable(s, i) ensures Settled(r.slots, i, s[i].kind.closure.at) {
        var c := s[i].kind.closure.at;
        assert KeepsAt(s, u.slots, i) && KeepsAt(u.slots, r.slots, c);
        if i == a {
          assert LiveClosure(u.slots, a);
        } else {
          assert i in front;
          assert Settled(u.slots, i, c);
        }
      }
    }
  }

  lemma CoveredNext(s: seq<Slot>, u: seq<Slot>, r: seq<Slot>, front: seq<nat>, a: nat, i: nat)
    requires Keeps(s, u) && Keeps(u, r) && i in front + [a] && LiveClosure(s, i)
    requires forall i {:trigger LiveClosure(s, i)} :: i in front && LiveClosure(s, i) ==> Covered(u, s[i].kind.closure.at)
    requires LiveClosure(u, a) ==> Covered(r, u[a].kind.closure.at)
    ensures Covered(r, s[i].kind.closure.at)
  {
    var c := s[i].kind.closure.at;
    assert KeepsAt(s, u, i);
    if i in front {
      assert KeepsAt(u, r, c);
    }
  }

  // ------------------------------------------------------------------ loop states

  /** The freeze loop over `seg`, after the slots `done` of earlier segments, has reached `slot`. */
  ghost predicate Freezing(start: AliasState, seg: Segment, done: seq<nat>, slot: nat, st: AliasState) {
    && seg.heap < slot <= seg.limit <= |start.slots| && Wf(start.slots)
    && AllBelow(Visited(done, seg.heap + 1, slot), |start.slots|)
    && FreezeFold(start, Visited(done, seg.heap + 1, slot)) == st
  }

  lemma FreezingFirst(start: AliasState, seg: Segment, done: seq<nat>)
    requires seg.heap < seg.limit <= |start.slots| && Wf(start.slots) && AllBelow(done, |start.slots|)
    ensures Freezing(start, seg, done, seg.heap + 1, FreezeFold(start, done))
  {
  }

  lemma FreezingWf(start: AliasState, seg: Segment, done: seq<nat>, slot: nat, st: AliasState)
    requires slot < seg.limit && Freezing(start, seg, done, slot, st)
    ensures slot < |st.slots| && Wf(st.slots)
  {
  }

  lemma FreezingNext(start: AliasState, seg: Segment, done: seq<nat>, slot: nat, st: AliasState, st': AliasState, next: nat)
    requires slot < seg.limit && Freezing(start, seg, done, slot, st) && next == slot + 1
    requires slot < |st.slots| && Wf(st.slots) && st' == FreezeStep(st, slot)
    ensures Freezing(start, seg, done, next, st')
  {
    FreezeFoldNext(start, Visited(done, seg.heap + 1, slot), Visited(done, seg.heap + 1, next), slot, st, st');
  }

  /** The freeze loop has gone through the segments heaps[..k]. */
  ghost predicate FrozenUpTo(start: AliasState, heaps: seq<Segment>, k: nat, st: AliasState) {
    && k <= |heaps| && SegmentsOk(heaps, |start.slots|) && Wf(start.slots)
    && AllBelow(Addresses(heaps[..k]), |start.slots|)
    && FreezeFold(start, Addresses(heaps[..k])) == st
  }

  lemma FrozenUpToFirst(start: AliasState, heaps: seq<Segment>)
    requires SegmentsOk(heaps, |start.slots|) && Wf(start.slots)
    ensures FrozenUpTo(start, heaps, 0, start)
  {
    assert heaps[..0] == [];
  }

  lemma FrozenUpToNext(start: AliasState, heaps: seq<Segment>, k: nat, st: AliasState, st': AliasState)
    requires k < |heaps| && FrozenUpTo(start, heaps, k, st)
    requires Freezing(start, heaps[k], Addresses(heaps[..k]), heaps[k].limit, st')
    ensures FrozenUpTo(start, heaps, k + 1, st')
  {
    VisitedRange(Addresses(heaps[..k]), heaps[k].heap + 1, heaps[k].limit);
    AddressesSnoc(heaps, k);
    var xs := Addresses(heaps[..k + 1]);
    assert xs == Visited(Addresses(heaps[..k]), heaps[k].heap + 1, heaps[k].limit);
    assert AllBelow(xs, |start.slots|);
    assert FreezeFold(start, xs) == st';
  }

  lemma FrozenUpToAll(start: AliasState, heaps: seq<Segment>, st: AliasState)
    requires FrozenUpTo(start, heaps, |heaps|, st)
    ensures FreezeFold(start, HeapOrder(heaps, |start.slots|)) == st
  {
    assert heaps[..|heaps|] == heaps;
  }

  /** The closure loop over `seg`, after the slots `done` of earlier segments, has reached `slot`. */
  ghost predicate Closing(start: AliasState, seg: Segment, done: seq<nat>, slot: nat, st: AliasState) {
    && seg.heap < slot <= seg.limit <= |start.slots| && Wf(start.slots)
    && AllBelow(Visited(done, seg.heap + 1, slot), |start.slots|)
    && ClosureFold(start, Visited(done, seg.heap + 1, slot)) == st
  }

  lemma ClosingFirst(start: AliasState, seg: Segment, done: seq<nat>)
    requires seg.heap < seg.limit <= |start.slots| && Wf(start.slots) && AllBelow(done, |start.slots|)
    ensures Closing(start, seg, done, seg.heap + 1, ClosureFold(start, done))
  {
  }

  lemma ClosingWf(start: AliasState, seg: Segment, done: seq<nat>, slot: nat, st: AliasState)
    requires slot < seg.limit && Closing(start, seg, done, slot, st)
    ensures slot < |st.slots| && Wf(st.slots)
  {
  }

  lemma ClosingNext(start: AliasState, seg: Segment, done: seq<nat>, slot: nat, st: AliasState, st': AliasState, next: nat)
    requires slot < seg.limit && Closing(start, seg, done, slot, st) && next == slot + 1
    requires slot < |st.slots| && Wf(st.slots) && st' == ClosureStep(st, slot)
    ensures Closing(start, seg, done, next, st')
  {
    ClosureFoldNext(start, Visited(done, seg.heap + 1, slot), Visited(done, seg.heap + 1, next), slot, st, st');
  }

  /** The closure loop has gone through the segments heaps[..k]. */
  ghost predicate ClosedUpTo(start: AliasState, heaps: seq<Segment>, k: nat, st: AliasState) {
    && k <= |heaps| && SegmentsOk(heaps, |start.slots|) && Wf(start.slots)
    && AllBelow(Addresses(heaps[..k]), |start.slots|)
    && ClosureFold(start, Addresses(heaps[..k])) == st
  }

  lemma ClosedUpToFirst(start: AliasState, heaps: seq<Segment>)
    requires SegmentsOk(heaps, |start.slots|) && Wf(start.slots)
    ensures ClosedUpTo(start, heaps, 0, start)
  {
    assert heaps[..0] == [];
  }

  lemma ClosedUpToNext(start: AliasState, heaps: seq<Segment>, k: nat, st: AliasState, st': AliasState)
    requires k < |heaps| && ClosedUpTo(start, heaps, k, st)
    requires Closing(start, heaps[k], Addresses(heaps[..k]), heaps[k].limit, st')
    ensures ClosedUpTo(start, heaps, k + 1, st')
  {
    VisitedRange(Addresses(heaps[..k]), heaps[k].heap + 1, heaps[k].limit);
    AddressesSnoc(heaps, k);
    var xs := Addresses(heaps[..k + 1]);
    assert xs == Visited(Addresses(heaps[..k]), heaps[k].heap + 1, heaps[k].limit);
    assert AllBelow(xs, |start.slots|);
    assert ClosureFold(start, xs) == st';
  }

  lemma ClosedUpToAll(start: AliasState, heaps: seq<Segment>, st: AliasState)
    requires ClosedUpTo(start, heaps, |heaps|, st)
    ensures ClosureFold(start, HeapOrder(heaps, |start.slots|)) == st
  {
    assert heaps[..|heaps|] == heaps;
  }

  // ------------------------------------------------------------------ both passes

  /** The instances the freeze pass gives an alias id, in heap order: the mutable live
      instances once the global object is unfrozen. */
  ghost function MutableInstances(s: seq<Slot>, heaps: seq<Segment>, global: nat): (r: seq<nat>)
    requires Wf(s) && SegmentsOk(heaps, |s|) && global < |s|
  {
    SameShapeWf(s, Unfreeze(s, global));
    MutableIn(Unfreeze(s, global), HeapOrder(heaps, |s|))
  }

  /** The end of fxPrepareHeap: the global object unfrozen, then the freeze pass and the
      closure pass over the live slots, the counter starting at 0. `given` lists every slot
      that took an alias id, in order. */
  ghost function Aliasing(s: seq<Slot>, heaps: seq<Segment>, global: nat): (r: AliasState)
    requires Wf(s) && SegmentsOk(heaps, |s|) && global < |s|
    ensures SameShape(s, r.slots) && Wf(r.slots)
  {
    var xs := HeapOrder(heaps, |s|);
    var s1 := Unfreeze(s, global);
    SameShapeWf(s, s1);
    var f := FreezeFold(AliasState(s1, 0, []), xs);
    var c := ClosureFold(AliasState(f.slots, f.count, []), xs);
    AliasState(c.slots, c.count, f.given + c.given)
  }

  /** The alias passes change ids and the flags DONT_PATCH, DONT_SET and DONT_DELETE only:
      links, kinds and marks stay as they were. */
  lemma AliasingMarks(s: seq<Slot>, heaps: seq<Segment>, global: nat)
    requires Wf(s) && SegmentsOk(heaps, |s|) && global < |s|
    ensures SameMarks(s, Aliasing(s, heaps, global).slots)
  {
    var xs := HeapOrder(heaps, |s|);
    var s1 := Unfreeze(s, global);
    SameShapeWf(s, s1);
    var f := FreezeFold(AliasState(s1, 0, []), xs);
    FreezeFoldShape(AliasState(s1, 0, []), xs);
    var st := AliasState(f.slots, f.count, []);
    ClosureFoldKeeps(st, xs);
    var r := ClosureFold(st, xs).slots;
    forall i | 0 <= i < |s| ensures Mark in s[i].flag <==> Mark in r[i].flag {
      assert IdOnlyAt(s1, f.slots, i) && KeepsAt(f.slots, r, i);
      if i == global {
        assert Mark in s1[i].flag + {DontPatch} <==> Mark in s[i].flag + {DontPatch};
      }
    }
  }

  /** `aliasCount` is the number of alias ids handed out; slot `given[j]` has alias id j, so
      no two slots share one; the mutable instances come first, in heap order; and the
      global object, when it is a live instance, is always among them. */
  lemma AliasingIds(s: seq<Slot>, heaps: seq<Segment>, global: nat)
    requires Wf(s) && SegmentsOk(heaps, |s|) && global < |s|
    ensures var r := Aliasing(s, heaps, global);
            && r.count == |r.given| && NoDup(r.given) && AllBelow(r.given, |s|)
            && (forall j :: 0 <= j < |r.given| ==> r.slots[r.given[j]].id == j)
            && |MutableInstances(s, heaps, global)| <= |r.given|
            && r.given[..|MutableInstances(s, heaps, global)|] == MutableInstances(s, heaps, global)
            && (global in HeapOrder(heaps, |s|) && Mark !in s[global].flag && s[global].kind.Instance? ==>
                  global in r.given && 0 <= r.slots[global].id < r.count)
  {
    var xs := HeapOrder(heaps, |s|);
    var s1 := Unfreeze(s, global);
    SameShapeWf(s, s1);
    var f := FreezeFold(AliasState(s1, 0, []), xs);
    var m := MutableIn(s1, xs);
    FreezeFromZero(s1, xs);
    var st2 := AliasState(f.slots, f.count, []);
    assert Handed(f.slots, |m|, st2);
    ClosureFoldHanded(f.slots, |m|, st2, xs);
    var c := ClosureFold(st2, xs);
    JoinIds(f.slots, m, c);
    assert Aliasing(s, heaps, global) == AliasState(c.slots, c.count, m + c.given);
    assert (m + c.given)[..|m|] == m;
    if global in xs && Mark !in s[global].flag && s[global].kind.Instance? {
      assert Mutable(s1, global);
      assert global in m;
    }
  }

  /** The freeze pass from a zero counter lists the mutable instances and gives the j-th of
      them the alias id j. */
  lemma FreezeFromZero(s: seq<Slot>, xs: seq<nat>)
    requires Wf(s) && AllBelow(xs, |s|) && NoDup(xs)
    ensures var f := FreezeFold(AliasState(s, 0, []), xs);
            var m := MutableIn(s, xs);
            && f.given == m && f.count == |m|
            && forall j :: 0 <= j < |m| ==> f.slots[m[j]].id == j
  {
    var st := AliasState(s, 0, []);
    FreezeFoldIds(st, xs);
    FreezeFoldGiven(st, xs);
    assert [] + MutableIn(s, xs) == MutableIn(s, xs);
  }

  /** The ids of the freeze pass, 0 .. |m|-1 on the slots `m` of `t`, joined with those the
      closure pass hands out from `t` on: one id per slot, all different. */
  lemma JoinIds(t: seq<Slot>, m: seq<nat>, c: AliasState)
    requires AllBelow(m, |t|) && (forall j :: 0 <= j < |m| ==> t[m[j]].id == j)
    requires Handed(t, |m|, c)
    ensures var all := m + c.given;
            && c.count == |all| && NoDup(all) && AllBelow(all, |t|)
            && forall j :: 0 <= j < |all| ==> c.slots[all[j]].id == j
  {
    var all := m + c.given;
    assert forall x :: x in m ==> x !in c.given by {
      forall x | x in m ensures x !in c.given {
        var j :| 0 <= j < |m| && m[j] == x;
        assert t[x].id == j;
      }
    }
    forall j | 0 <= j < |all| ensures c.slots[all[j]].id == j {
      if j < |m| {
        assert all[j] == m[j] && m[j] in m;
      } else {
        assert all[j] == c.given[j - |m|];
      }
    }
    assert NoDup(all) by {
      forall j, k | 0 <= j < k < |all| ensures all[j] != all[k] {
        assert c.slots[all[j]].id == j && c.slots[all[k]].id == k;
      }
    }
  }
}
