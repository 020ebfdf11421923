/** The projection pass of fxPrepareHeap: every live slot gets the next index, arrays reserve
    a chunk header and one index per element and have their elements sealed, instances of
    certain shapes are prepared (made read-only) when stripping, and BigInt words are
    counted. */
module Prepare {
  import opened Slots

  /** What the pass reads besides the heap: the stripping switch, Array.prototype, and the
      key ids `prototype` and XS_ENVIRONMENT_BEHAVIOR (from headers not part of this model). */
  datatype Context = Context(stripping: bool, arrayPrototype: Ref, prototypeId: int, environmentBehavior: int)

  /** `t` is `s` with flags only added, and only DONT_DELETE, DONT_SET and DONT_PATCH. */
  predicate Grows(s: seq<Slot>, t: seq<Slot>) {
    && |s| == |t|
    && forall i {:trigger GrowsAt(s, t, i)} :: 0 <= i < |s| ==> GrowsAt(s, t, i)
  }

  /** Slot `i` of `t` is that of `s` with flags only added, and only those three. */
  predicate GrowsAt(s: seq<Slot>, t: seq<Slot>, i: nat)
    requires i < |s| && i < |t|
  {
    && t[i].next == s[i].next && t[i].id == s[i].id && t[i].kind == s[i].kind
    && s[i].flag <= t[i].flag && t[i].flag - s[i].flag <= {DontDelete, DontSet, DontPatch}
  }

  lemma GrowsWf(s: seq<Slot>, t: seq<Slot>)
    requires Wf(s) && Grows(s, t)
    ensures Wf(t) && SameShape(s, t)
  {
    forall i | 0 <= i < |s| ensures t[i].next == s[i].next && t[i].kind == s[i].kind {
      assert GrowsAt(s, t, i);
    }
    SameShapeWf(s, t);
  }

  lemma GrowsTrans(s: seq<Slot>, t: seq<Slot>, u: seq<Slot>)
    requires Grows(s, t) && Grows(t, u)
    ensures Grows(s, u)
  {
    forall i | 0 <= i < |s| ensures GrowsAt(s, u, i) {
      assert GrowsAt(s, t, i) && GrowsAt(t, u, i);
    }
  }

  // ------------------------------------------------------------------ fxPrepareInstance

  /** The properties of the instance at `inst`, in chain order. */
  ghost function Props(s: seq<Slot>, inst: nat): (ps: seq<nat>)
    requires Wf(s) && inst < |s|
    ensures AllBelow(ps, |s|) && Ends(s, s[inst].next) && ps == Walk(s, s[inst].next)
  {
    WfNext(s, inst);
    Walk(s, s[inst].next)
  }

  /** fxPrepareInstance: when stripping, every property of the instance is sealed and the
      instance is marked DONT_PATCH; otherwise nothing changes. */
  ghost function PrepareInstance(stripping: bool, s: seq<Slot>, inst: nat): (r: seq<Slot>)
    requires Wf(s) && inst < |s|
    ensures Grows(s, r) && Wf(r)
    ensures !stripping ==> r == s
    ensures stripping ==>
              && r[inst] == AddFlags(s[inst], {DontPatch})
              && (forall p :: p in Props(s, inst) ==> r[p] == Seal(s[p]))
              && SealedInstance(r, inst)
    ensures stripping ==>
              forall i :: 0 <= i < |s| && i != inst && i !in Props(s, inst) ==> r[i] == s[i]
  {
    WfNext(s, inst);
    if !stripping then s
    else
      var t := SealAll(s, Props(s, inst));
      var r := t[inst := AddFlags(t[inst], {DontPatch})];
      WalkAcyclic(s, inst);
      GrowsWf(s, r);
      GrowsProps(s, r, inst);
      r
  }

  /** The instance at `inst` is prepared: DONT_PATCH, with every property non-deletable and,
      unless an accessor, read-only. */
  ghost predicate SealedInstance(s: seq<Slot>, inst: nat)
    requires Wf(s) && inst < |s|
  {
    && DontPatch in s[inst].flag
    && forall p :: p in Props(s, inst) ==> DontDelete in s[p].flag && (s[p].kind.Accessor? || DontSet in s[p].flag)
  }

  /** Growing flags leaves every property list as it was. */
  lemma GrowsProps(s: seq<Slot>, t: seq<Slot>, inst: nat)
    requires Wf(s) && Grows(s, t) && inst < |s|
    ensures Wf(t) && Props(t, inst) == Props(s, inst)
  {
    GrowsWf(s, t);
    WfNext(s, inst);
    WalkSameNexts(s, t, s[inst].next);
  }

  /** A prepared instance stays prepared while flags only grow. */
  lemma GrowsKeepsSealed(s: seq<Slot>, t: seq<Slot>, inst: nat)
    requires Wf(s) && Grows(s, t) && inst < |s| && SealedInstance(s, inst)
    ensures Wf(t) && SealedInstance(t, inst)
  {
    GrowsProps(s, t, inst);
    assert GrowsAt(s, t, inst);
    forall p | p in Props(t, inst) ensures DontDelete in t[p].flag && (t[p].kind.Accessor? || DontSet in t[p].flag) {
      assert GrowsAt(s, t, p);
    }
  }

  lemma SealAllSnoc(s: seq<Slot>, done: seq<nat>, p: nat)
    requires p < |s|
    ensures SealAll(s, done + [p]) == SealAll(s, done)[p := Seal(SealAll(s, done)[p])]
  {
  }

  /** The state of the property walk of fxPrepareInstance: the properties in `done` are
      sealed, and `property` heads the rest of the list. */
  ghost predicate Sealing(s0: seq<Slot>, inst: nat, done: seq<nat>, property: Ref, cur: seq<Slot>)
  {
    && Wf(s0) && inst < |s0| && Ends(s0, s0[inst].next)
    && Ends(s0, property)
    && Walk(s0, s0[inst].next) == done + Walk(s0, property)
    && AllBelow(done, |s0|)
    && cur == SealAll(s0, done)
  }

  /** One property of the walk is sealed. */
  method SealProperty(mem: array<Slot>, inst: nat, property: Ref, ghost s0: seq<Slot>, ghost done: seq<nat>)
    returns (property': Ref, ghost done': seq<nat>)
    requires property.Ptr? && Sealing(s0, inst, done, property, mem[..])
    modifies mem
    ensures Sealing(s0, inst, done', property', mem[..])
    ensures |Walk(s0, property')| < |Walk(s0, property)|
  {
    var p := property.at;
    WalkStep(s0, p);
    SealAllSnoc(s0, done, p);
    var flag := mem[p].flag;
    if !mem[p].kind.Accessor? {
      flag := flag + {DontSet};
    }
    flag := flag + {DontDelete};
    assert mem[p].(flag := flag) == Seal(mem[p]);
    mem[p] := mem[p].(flag := flag);
    done' := done + [p];
    property' := mem[p].next;
    assert done + Walk(s0, property) == done' + Walk(s0, property');
  }

  method PrepareInstanceM(mem: array<Slot>, stripping: bool, inst: nat)
    requires Wf(mem[..]) && inst < mem.Length
    modifies mem
    ensures mem[..] == PrepareInstance(stripping, old(mem[..]), inst)
  {
    if stripping {
      ghost var s0 := mem[..];
      WfNext(s0, inst);
      ghost var done: seq<nat> := [];
      var property := mem[inst].next;
      while property.Ptr?
        invariant Sealing(s0, inst, done, property, mem[..])
        decreases |Walk(s0, property)|
      {
        property, done := SealProperty(mem, inst, property, s0, done);
      }
      WalkNull(s0);
      assert done + [] == done;
      mem[inst] := mem[inst].(flag := mem[inst].flag + {DontPatch});
    }
  }

  // ------------------------------------------------------------------ instance shapes

  /** How the projection treats an instance, from its first property. */
  datatype Shape = Plain | Prepared | FunctionShape

  function InstanceShape(c: Context, s: seq<Slot>, a: nat): (r: Shape)
    requires a < |s| && ValidRef(|s|, s[a].next)
    ensures r == FunctionShape <==> s[a].next.Ptr? && IsFunctionKind(s[s[a].next.at].kind)
    ensures r == Plain && s[a].next.Ptr? ==>
              var k := s[s[a].next.at].kind; !k.Module? && !k.Export? && (k.Array? ==> Ptr(a) == c.arrayPrototype)
    ensures s[a].next.Null? ==> r == Plain
    ensures r == Prepared <==>
              && s[a].next.Ptr?
              && var q := s[s[a].next.at];
                 && !IsFunctionKind(q.kind)
                 && ((q.kind.Array? && Ptr(a) != c.arrayPrototype) || q.kind.Module? || q.kind.Export?
                     || (Internal in q.flag && q.id == c.environmentBehavior))
  {
    var property := s[a].next;
    if property.Null? then Plain
    else
      var q := s[property.at];
      if q.kind.Array? && Ptr(a) != c.arrayPrototype then Prepared
      else if IsFunctionKind(q.kind) then FunctionShape
      else if q.kind.Module? then Prepared
      else if q.kind.Export? then Prepared
      else if Internal in q.flag && q.id == c.environmentBehavior then Prepared
      else Plain
  }

  predicate IsPrototypeProperty(x: Slot, prototypeId: int) {
    x.id == prototypeId && x.kind.Reference?
  }

  /** The position of the first `prototype` reference among the properties `props`. */
  function FirstPrototype(s: seq<Slot>, props: seq<nat>, prototypeId: int): (r: Option<nat>)
    requires AllBelow(props, |s|)
    ensures r.Some? ==> r.value < |props| && IsPrototypeProperty(s[props[r.value]], prototypeId)
    ensures r.Some? ==> forall j :: 0 <= j < r.value ==> !IsPrototypeProperty(s[props[j]], prototypeId)
    ensures r.None? ==> forall j :: 0 <= j < |props| ==> !IsPrototypeProperty(s[props[j]], prototypeId)
  {
    if props == [] then None
    else if IsPrototypeProperty(s[props[0]], prototypeId) then Some(0)
    else match FirstPrototype(s, props[1..], prototypeId)
         case None => None
         case Some(j) => Some(j + 1)
  }

  /** What the `prototype` property found first among `props` refers to, if any. */
  function PrototypeTarget(s: seq<Slot>, props: seq<nat>, prototypeId: int): (r: Option<Ref>)
    requires AllBelow(props, |s|)
    ensures r.Some? <==> FirstPrototype(s, props, prototypeId).Some?
    ensures r.Some? && Wf(s) ==> r.value.Ptr? && r.value.at < |s|
  {
    match FirstPrototype(s, props, prototypeId)
    case None => None
    case Some(j) =>
      assert Wf(s) ==> SlotOk(|s|, s[props[j]]);
      Some(s[props[j]].kind.target)
  }

  lemma PrototypeTargetCons(s: seq<Slot>, p: nat, rest: seq<nat>, prototypeId: int)
    requires p < |s| && AllBelow(rest, |s|)
    ensures AllBelow([p] + rest, |s|)
    ensures PrototypeTarget(s, [p] + rest, prototypeId) ==
              if IsPrototypeProperty(s[p], prototypeId) then Some(s[p].kind.target)
              else PrototypeTarget(s, rest, prototypeId)
  {
    assert ([p] + rest)[0] == p && ([p] + rest)[1..] == rest;
  }

  /** The search of a constructor's properties, after the first one, for `prototype`. */
  method FindPrototype(mem: array<Slot>, first: Ref, prototypeId: int) returns (target: Option<Ref>)
    requires Ends(mem[..], first)
    ensures AllBelow(Walk(mem[..], first), mem.Length)
    ensures target == PrototypeTarget(mem[..], Walk(mem[..], first), prototypeId)
  {
    ghost var s := mem[..];
    ghost var all := Walk(s, first);
    var property := first;
    while property.Ptr?
      invariant Ends(s, property)
      invariant PrototypeTarget(s, all, prototypeId) == PrototypeTarget(s, Walk(s, property), prototypeId)
      decreases |Walk(s, property)|
    {
      var p := property.at;
      WalkStep(s, p);
      PrototypeTargetCons(s, p, Walk(s, mem[p].next), prototypeId);
      if mem[p].id == prototypeId && mem[p].kind.Reference? {
        target := Some(mem[p].kind.target);
        return;
      }
      property := mem[p].next;
    }
    WalkNull(s);
    target := None;
  }

  /** What the `prototype` property of the function instance at `a` refers to: the first
      such reference among the properties after the function record. */
  ghost function ConstructorPrototype(s: seq<Slot>, a: nat, prototypeId: int): (r: Option<Ref>)
    requires Wf(s) && a < |s| && s[a].next.Ptr?
    ensures r.Some? ==> r.value.Ptr? && r.value.at < |s|
  {
    var q := s[a].next.at;
    assert SlotOk(|s|, s[a]);
    WfNext(s, q);
    PrototypeTarget(s, Walk(s, s[q].next), prototypeId)
  }

  /** Growing flags does not change which `prototype` property is found first. */
  lemma {:induction false} FirstPrototypeGrows(s: seq<Slot>, t: seq<Slot>, props: seq<nat>, prototypeId: int)
    requires Grows(s, t) && AllBelow(props, |s|)
    ensures FirstPrototype(t, props, prototypeId) == FirstPrototype(s, props, prototypeId)
    decreases |props|
  {
    if props != [] {
      assert GrowsAt(s, t, props[0]);
      FirstPrototypeGrows(s, t, props[1..], prototypeId);
    }
  }

  lemma ConstructorPrototypeGrows(s: seq<Slot>, t: seq<Slot>, a: nat, prototypeId: int)
    requires Wf(s) && Grows(s, t) && a < |s| && s[a].next.Ptr?
    ensures Wf(t) && t[a].next.Ptr?
    ensures ConstructorPrototype(t, a, prototypeId) == ConstructorPrototype(s, a, prototypeId)
  {
    GrowsWf(s, t);
    assert GrowsAt(s, t, a);
    var q := s[a].next.at;
    assert SlotOk(|s|, s[a]);
    assert GrowsAt(s, t, q);
    WfNext(s, q);
    WalkSameNexts(s, t, s[q].next);
    FirstPrototypeGrows(s, t, Walk(s, s[q].next), prototypeId);
    var ps := Walk(s, s[q].next);
    match FirstPrototype(s, ps, prototypeId)
    case None =>
    case Some(j) => assert GrowsAt(s, t, ps[j]);
  }

  /** A function instance: prepared itself, and when stripping a constructor also the
      object its `prototype` property refers to. */
  ghost function PrepareFunction(stripping: bool, prototypeId: int, s: seq<Slot>, a: nat): (r: seq<Slot>)
    requires Wf(s) && a < |s| && s[a].next.Ptr?
    ensures Grows(s, r) && Wf(r)
    ensures !stripping ==> r == s
    ensures stripping ==> SealedInstance(r, a)
    ensures stripping && CanConstruct in s[a].flag && ConstructorPrototype(s, a, prototypeId).Some? ==>
              SealedInstance(r, ConstructorPrototype(s, a, prototypeId).value.at)
    ensures stripping && (CanConstruct !in s[a].flag || ConstructorPrototype(s, a, prototypeId).None?) ==>
              r == PrepareInstance(true, s, a)
  {
    var t := PrepareInstance(stripping, s, a);
    if stripping && CanConstruct in t[a].flag then
      ConstructorPrototypeGrows(s, t, a, prototypeId);
      match ConstructorPrototype(t, a, prototypeId)
      case None => t
      case Some(target) =>
        var r := PrepareInstance(true, t, target.at);
        GrowsTrans(s, t, r);
        GrowsKeepsSealed(t, r, a);
        r
    else
      assert stripping ==> CanConstruct !in s[a].flag by { assert GrowsAt(s, t, a); }
      t
  }

  method PrepareFunctionM(mem: array<Slot>, stripping: bool, prototypeId: int, a: nat)
    requires Wf(mem[..]) && a < mem.Length && mem[a].next.Ptr?
    modifies mem
    ensures mem[..] == PrepareFunction(stripping, prototypeId, old(mem[..]), a)
  {
    assert SlotOk(|mem[..]|, mem[..][a]);
    var q := mem[a].next.at;
    PrepareInstanceM(mem, stripping, a);
    if stripping && CanConstruct in mem[a].flag {
      WfNext(mem[..], q);
      var target := FindPrototype(mem, mem[q].next, prototypeId);
      if target.Some? {
        PrepareInstanceM(mem, true, target.value.at);
      }
    }
  }

  /** The instance branch of the projection loop. */
  ghost function PrepareShape(c: Context, s: seq<Slot>, a: nat): (r: seq<Slot>)
    requires Wf(s) && a < |s|
    ensures Grows(s, r) && Wf(r)
    ensures !c.stripping ==> r == s
    ensures c.stripping && InstanceShape(c, s, a) != Plain ==> SealedInstance(r, a)
    ensures InstanceShape(c, s, a) == Plain ==> r == s
    ensures c.stripping && InstanceShape(c, s, a) == Prepared ==>
              forall i :: 0 <= i < |s| && i != a && i !in Props(s, a) ==> r[i] == s[i]
  {
    assert SlotOk(|s|, s[a]);
    match InstanceShape(c, s, a)
    case Plain => s
    case Prepared => PrepareInstance(c.stripping, s, a)
    case FunctionShape => PrepareFunction(c.stripping, c.prototypeId, s, a)
  }

  method PrepareShapeM(mem: array<Slot>, c: Context, a: nat)
    requires Wf(mem[..]) && a < mem.Length
    modifies mem
    ensures mem[..] == PrepareShape(c, old(mem[..]), a)
  {
    assert SlotOk(|mem[..]|, mem[..][a]);
    var property := mem[a].next;
    if property.Ptr? {
      var q := mem[property.at];
      if q.kind.Array? && Ptr(a) != c.arrayPrototype {
        PrepareInstanceM(mem, c.stripping, a);
      } else if q.kind.Callback? || q.kind.CallbackX? || q.kind.Code? || q.kind.CodeX? {
        PrepareFunctionM(mem, c.stripping, c.prototypeId, a);
      } else if q.kind.Module? {
        PrepareInstanceM(mem, c.stripping, a);
      } else if q.kind.Export? {
        PrepareInstanceM(mem, c.stripping, a);
      } else if Internal in q.flag && q.id == c.environmentBehavior {
        PrepareInstanceM(mem, c.stripping, a);
      }
    }
  }
}
