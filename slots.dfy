/** The slot arena the linker walks: slots addressed by integer handle, heap segments as
    [heap, limit) ranges whose first slot is the segment header, and the walks along
    `next` chains that every pass relies on. */
module Slots {

  datatype Option<T> = None | Some(value: T)

  /** The position of the first element of `xs` that satisfies `p`. */
  function First<T>(xs: seq<T>, p: T -> bool): (r: Option<nat>)
    ensures r.Some? ==> r.value < |xs| && p(xs[r.value])
    ensures r.Some? ==> forall j :: 0 <= j < r.value ==> !p(xs[j])
    ensures r.None? <==> forall j :: 0 <= j < |xs| ==> !p(xs[j])
    decreases |xs|
  {
    if xs == [] then None
    else if p(xs[0]) then Some(0)
    else
      match First(xs[1..], p)
      case None => None
      case Some(j) => Some(j + 1)
  }

  /** An element that satisfies `p` and has no earlier match is the one the search finds. */
  lemma FirstIs<T>(xs: seq<T>, p: T -> bool, i: nat)
    requires i < |xs| && p(xs[i]) && forall j :: 0 <= j < i ==> !p(xs[j])
    ensures First(xs, p) == Some(i)
  {
  }

  /** A slot pointer: NULL, or the handle of a slot in the arena. */
  datatype Ref = Null | Ptr(at: nat)

  /** Slot flag bits, by bit position. The masks come from a header that is not part of this
      model; only their distinctness matters here. */
  newtype Flag = x: int | 0 <= x < 9
  const Debug: Flag := 0
  const DontDelete: Flag := 1
  const DontEnum: Flag := 2
  const DontSet: Flag := 3
  const Internal: Flag := 4
  const Mark: Flag := 5
  const CanConstruct: Flag := 6
  const DontPatch: Flag := 7
  const DontMarshall: Flag := 8

  /** XS_NO_ID */
  const NO_ID: int := -1

  /** The slot kinds whose payload the linker reads or writes, each with that payload. Callback, host
      and code addresses are opaque integers (C function and byte pointers). */
  datatype Kind =
    | BigInt(size: nat, sign: int, data: seq<int>)
    | BigIntX(size: nat, sign: int, data: seq<int>)
    | Reference(target: Ref)
    | Closure(closure: Ref)
    | Instance(prototype: Ref)
    | Array(address: Ref, length: int, count: nat)
    | Callback(callback: int)
    | CallbackX(callback: int)
    | Code(code: int, closures: Ref)
    | CodeX(code: int, closures: Ref)
    | HostFunction(builder: int)
    | TypedArray(dispatch: int, atomics: int)
    | Accessor(getter: Ref, setter: Ref)
    | Home(homeObject: Ref, homeModule: Ref)
    | Module(realm: Ref, moduleId: int)
    | Export(exportClosure: Ref, exportModule: Ref)
    | Integer(value: int)
    | Other(tag: Tag)

  /** The remaining kinds, whose payload no pass of the linker inspects. */
  datatype Tag =
    | Uninitialized | Undefined | NullKind | Error | Boolean | Number | Date
    | StringKind | StringX | Symbol | ArrayBuffer | DataView | Global | MapKind | SetKind
    | WeakMap | WeakSet | Host | Promise | Proxy | RegExp | At | Entry | Key | KeyX | List | Stack

  /** One txSlot. For array elements `next` holds what the runtime stores there, printed raw. */
  datatype Slot = Slot(next: Ref, id: int, flag: set<Flag>, kind: Kind)

  /** A heap segment: `heap` is its header slot, the slots are heap+1 .. limit-1. */
  datatype Segment = Segment(heap: nat, limit: nat)

  /** A function record kind: what makes an instance a function and a closure read-only. */
  predicate IsFunctionKind(k: Kind) {
    k.Callback? || k.CallbackX? || k.Code? || k.CodeX?
  }

  predicate ValidRef(n: nat, r: Ref) {
    r.Null? || r.at < n
  }

  /** What the C code dereferences without a check must point into the arena. */
  predicate SlotOk(n: nat, x: Slot) {
    && ValidRef(n, x.next)
    && match x.kind
       case Reference(t) => t.Ptr? && t.at < n
       case Closure(c) => c.Ptr? && c.at < n
       case Array(address, _, count) => address.Null? || address.at + count <= n
       case BigInt(size, _, data) => |data| == size
       case BigIntX(size, _, data) => |data| == size
       case _ => true
  }

  /** The slots reached from `r` by following `next`, when that walk reaches NULL within
      `fuel` steps without leaving the arena. */
  function Chain(s: seq<Slot>, r: Ref, fuel: nat): (c: Option<seq<nat>>)
    ensures c.Some? ==> forall x :: x in c.value ==> x < |s|
    ensures c.Some? ==> AllBelow(c.value, |s|)
    ensures c.Some? && r.Ptr? ==> |c.value| > 0 && c.value[0] == r.at
    decreases fuel
  {
    if r.Null? then Some([])
    else if r.at >= |s| || fuel == 0 then None
    else match Chain(s, s[r.at].next, fuel - 1)
         case None => None
         case Some(rest) => Some([r.at] + rest)
  }

  /** The walk from `r` ends at NULL. */
  ghost predicate Ends(s: seq<Slot>, r: Ref) {
    exists f: nat :: Chain(s, r, f).Some?
  }

  /** A heap the linker can process: the pointers it follows stay in the arena and every
      `next` chain ends at NULL. */
  ghost predicate Wf(s: seq<Slot>) {
    && (forall i {:trigger SlotOk(|s|, s[i])} :: 0 <= i < |s| ==> SlotOk(|s|, s[i]))
    && (forall i :: 0 <= i < |s| ==> Ends(s, Ptr(i)))
  }

  /** Two segments that do not overlap. */
  predicate Apart(a: Segment, b: Segment) {
    a.limit <= b.heap || b.limit <= a.heap
  }

  /** Segments lie in the arena and do not overlap. */
  predicate SegmentsOk(heaps: seq<Segment>, n: nat) {
    && (forall k :: 0 <= k < |heaps| ==> heaps[k].heap < heaps[k].limit <= n)
    && (forall k, l {:trigger Apart(heaps[k], heaps[l])} :: 0 <= k < l < |heaps| ==> Apart(heaps[k], heaps[l]))
  }

  /** Two arena states that agree on every `next` and every kind. */
  predicate SameShape(s: seq<Slot>, t: seq<Slot>) {
    && |s| == |t|
    && forall i :: 0 <= i < |s| ==> s[i].next == t[i].next && s[i].kind == t[i].kind
  }

  /** Two arena states that agree on every `next`, every kind and every mark: the states the
      numbering of the writer cannot tell apart. */
  predicate SameMarks(s: seq<Slot>, t: seq<Slot>) {
    && SameShape(s, t)
    && forall i :: 0 <= i < |s| ==> (Mark in s[i].flag <==> Mark in t[i].flag)
  }

  /** The handles lo .. hi-1 in increasing order. */
  function Range(lo: nat, hi: nat): (r: seq<nat>)
    ensures |r| == if lo <= hi then hi - lo else 0
    ensures forall x :: x in r <==> lo <= x < hi
    ensures forall j :: 0 <= j < |r| ==> r[j] == lo + j
    decreases hi
  {
    if hi <= lo then [] else Range(lo, hi - 1) + [hi - 1]
  }

  /** The slot handles of the segments, segment by segment, each in position order:
      the order in which every pass of the linker visits the heap. */
  function Addresses(heaps: seq<Segment>): (r: seq<nat>)
    decreases |heaps|
  {
    if heaps == [] then []
    else
      var h := heaps[|heaps| - 1];
      Addresses(heaps[..|heaps| - 1]) + Range(h.heap + 1, h.limit)
  }

  predicate AllBelow(addrs: seq<nat>, n: nat) {
    forall j :: 0 <= j < |addrs| ==> addrs[j] < n
  }

  predicate NoDup(addrs: seq<nat>) {
    forall j, k :: 0 <= j < k < |addrs| ==> addrs[j] != addrs[k]
  }

  /** The flags fxPrepareInstance and the array sealing give a property or element. */
  function PropFlags(k: Kind): set<Flag> {
    if k.Accessor? then {DontDelete} else {DontDelete, DontSet}
  }

  /** A property made non-deletable, and read-only unless it is an accessor. */
  function Seal(x: Slot): (r: Slot)
    ensures DontDelete in r.flag && (!x.kind.Accessor? ==> DontSet in r.flag)
    ensures r.next == x.next && r.id == x.id && r.kind == x.kind && x.flag <= r.flag
    ensures r.flag - x.flag <= {DontDelete, DontSet}
    ensures r.flag + PropFlags(r.kind) == r.flag
  {
    x.(flag := x.flag + PropFlags(x.kind))
  }

  /** Seal every slot whose handle is in `targets`. */
  function SealAll(s: seq<Slot>, targets: seq<nat>): (r: seq<Slot>)
    ensures |r| == |s|
    ensures forall i :: 0 <= i < |s| ==> r[i] == if i in targets then Seal(s[i]) else s[i]
  {
    seq(|s|, i requires 0 <= i < |s| => if i in targets then Seal(s[i]) else s[i])
  }

  /** Seal the slots lo .. hi-1, one after the other. */
  function SealRange(s: seq<Slot>, lo: nat, hi: nat): (r: seq<Slot>)
    requires hi <= |s|
    ensures |r| == |s|
    decreases hi
  {
    if hi <= lo then s else SealRange(s, lo, hi - 1)[hi - 1 := Seal(s[hi - 1])]
  }

  /** The slots lo .. hi-1 are sealed and the others are left as they were. */
  lemma {:induction false} SealRangeAt(s: seq<Slot>, lo: nat, hi: nat, i: nat)
    requires hi <= |s| && i < |s|
    ensures SealRange(s, lo, hi)[i] == if lo <= i < hi then Seal(s[i]) else s[i]
    decreases hi
  {
    if lo < hi && i != hi - 1 {
      SealRangeAt(s, lo, hi - 1, i);
    }
  }

  function AddFlags(x: Slot, fs: set<Flag>): Slot {
    x.(flag := x.flag + fs)
  }

  // ---------------------------------------------------------------- lemmas on chains

  lemma {:induction false} ChainMono(s: seq<Slot>, r: Ref, f: nat, g: nat)
    requires Chain(s, r, f).Some? && f <= g
    ensures Chain(s, r, g) == Chain(s, r, f)
    decreases f
  {
    if r.Ptr? {
      ChainMono(s, s[r.at].next, f - 1, g - 1);
    }
  }

  /** The slots on the walk from `r`, independent of how much fuel was needed. */
  ghost function Walk(s: seq<Slot>, r: Ref): (c: seq<nat>)
    requires Ends(s, r)
    ensures forall x :: x in c ==> x < |s|
    ensures AllBelow(c, |s|)
  {
    var f: nat :| Chain(s, r, f).Some?;
    Chain(s, r, f).value
  }

  lemma WalkIs(s: seq<Slot>, r: Ref, f: nat)
    requires Chain(s, r, f).Some?
    ensures Ends(s, r) && Walk(s, r) == Chain(s, r, f).value
  {
    var g: nat :| Chain(s, r, g).Some? && Walk(s, r) == Chain(s, r, g).value;
    if f <= g { ChainMono(s, r, f, g); } else { ChainMono(s, r, g, f); }
  }

  lemma WalkNull(s: seq<Slot>)
    ensures Ends(s, Null) && Walk(s, Null) == []
  {
    WalkIs(s, Null, 0);
  }

  /** One step along a walk that ends. */
  lemma WalkStep(s: seq<Slot>, a: nat)
    requires Ends(s, Ptr(a))
    ensures a < |s| && Ends(s, s[a].next)
    ensures Walk(s, Ptr(a)) == [a] + Walk(s, s[a].next)
  {
    var f: nat :| Chain(s, Ptr(a), f).Some?;
    WalkIs(s, Ptr(a), f);
    WalkIs(s, s[a].next, f - 1);
  }

  /** Walks only read `next`, so two states with the same links have the same walks. */
  lemma {:induction false} ChainSameNexts(s: seq<Slot>, t: seq<Slot>, r: Ref, f: nat)
    requires |s| == |t| && forall i :: 0 <= i < |s| ==> s[i].next == t[i].next
    ensures Chain(s, r, f) == Chain(t, r, f)
    decreases f
  {
    if r.Ptr? && r.at < |s| && f > 0 {
      ChainSameNexts(s, t, s[r.at].next, f - 1);
    }
  }

  lemma WalkSameNexts(s: seq<Slot>, t: seq<Slot>, r: Ref)
    requires |s| == |t| && forall i :: 0 <= i < |s| ==> s[i].next == t[i].next
    requires Ends(s, r)
    ensures Ends(t, r) && Walk(t, r) == Walk(s, r)
  {
    var f: nat :| Chain(s, r, f).Some?;
    ChainSameNexts(s, t, r, f);
    WalkIs(s, r, f);
    WalkIs(t, r, f);
  }

  /** A chain read from its k-th slot on is the chain from that slot, with k less fuel. */
  lemma {:induction false} ChainSuffix(s: seq<Slot>, r: Ref, f: nat, k: nat)
    requires Chain(s, r, f).Some? && k < |Chain(s, r, f).value|
    ensures k < f
    ensures Chain(s, Ptr(Chain(s, r, f).value[k]), f - k) == Some(Chain(s, r, f).value[k..])
    decreases k
  {
    var v := Chain(s, r, f).value;
    if k == 0 {
      assert v[k..] == v;
    } else {
      var rest := Chain(s, s[r.at].next, f - 1).value;
      ChainSuffix(s, s[r.at].next, f - 1, k - 1);
      assert v[k] == rest[k - 1] && v[k..] == rest[k - 1..];
    }
  }

  /** In a well-formed heap no slot lies on the walk from its own `next`. */
  lemma WalkAcyclic(s: seq<Slot>, a: nat)
    requires Wf(s) && a < |s|
    ensures Ends(s, s[a].next) && a !in Walk(s, s[a].next)
  {
    assert Ends(s, Ptr(a));
    WalkStep(s, a);
    var f: nat :| Chain(s, Ptr(a), f).Some?;
    WalkIs(s, Ptr(a), f);
    var w := Walk(s, s[a].next);
    var v := Chain(s, Ptr(a), f).value;
    assert v == [a] + w;
    forall k | 0 <= k < |w| ensures w[k] != a {
      ChainSuffix(s, Ptr(a), f, k + 1);
      ChainMono(s, Ptr(v[k + 1]), f - (k + 1), f);
      assert v[k + 1] == w[k];
      assert |v[k + 1..]| < |v|;
    }
  }

  /** Passes that change only flags and ids keep a heap well formed. */
  lemma SameShapeWf(s: seq<Slot>, t: seq<Slot>)
    requires Wf(s) && SameShape(s, t)
    ensures Wf(t)
  {
    forall i | 0 <= i < |t| ensures SlotOk(|t|, t[i]) && Ends(t, Ptr(i)) {
      assert SlotOk(|s|, s[i]);
      WalkSameNexts(s, t, Ptr(i));
    }
  }

  lemma WfNext(s: seq<Slot>, a: nat)
    requires Wf(s) && a < |s|
    ensures Ends(s, s[a].next)
  {
    assert Ends(s, Ptr(a));
    WalkStep(s, a);
  }

  // ---------------------------------------------------------------- lemmas on addresses

  /** The visit order of the first k segments is a prefix of the whole visit order. */
  lemma {:induction false} AddressesPrefix(heaps: seq<Segment>, k: nat)
    requires k <= |heaps|
    ensures var front := Addresses(heaps[..k]);
            |front| <= |Addresses(heaps)| && Addresses(heaps)[..|front|] == front
    decreases |heaps|
  {
    if k < |heaps| {
      var m := |heaps| - 1;
      var init := heaps[..m];
      assert init[..k] == heaps[..k];
      AddressesPrefix(init, k);
    } else {
      assert heaps[..k] == heaps;
    }
  }

  lemma AddressesSnoc(heaps: seq<Segment>, k: nat)
    requires k < |heaps|
    ensures Addresses(heaps[..k + 1]) == Addresses(heaps[..k]) + Range(heaps[k].heap + 1, heaps[k].limit)
  {
    assert heaps[..k + 1][..k] == heaps[..k];
  }

  lemma {:induction false} AddressesIn(heaps: seq<Segment>, x: nat)
    requires x in Addresses(heaps)
    ensures exists k :: 0 <= k < |heaps| && heaps[k].heap < x < heaps[k].limit
    decreases |heaps|
  {
    var m := |heaps| - 1;
    if x !in Range(heaps[m].heap + 1, heaps[m].limit) {
      AddressesIn(heaps[..m], x);
      var k :| 0 <= k < m && heaps[..m][k].heap < x < heaps[..m][k].limit;
      assert heaps[k] == heaps[..m][k];
    }
  }

  lemma AddressesBelow(heaps: seq<Segment>, n: nat)
    requires SegmentsOk(heaps, n)
    ensures AllBelow(Addresses(heaps), n)
  {
    var A := Addresses(heaps);
    forall j | 0 <= j < |A| ensures A[j] < n {
      assert A[j] in A;
      AddressesIn(heaps, A[j]);
    }
  }

  /** Disjoint segments give every slot one visit. */
  lemma {:induction false} AddressesNoDup(heaps: seq<Segment>, n: nat)
    requires SegmentsOk(heaps, n)
    ensures NoDup(Addresses(heaps))
    decreases |heaps|
  {
    if heaps != [] {
      var m := |heaps| - 1;
      var front := heaps[..m];
      assert SegmentsOk(front, n);
      AddressesNoDup(front, n);
      var A, R := Addresses(front), Range(heaps[m].heap + 1, heaps[m].limit);
      forall j, k | 0 <= j < k < |A + R| ensures (A + R)[j] != (A + R)[k] {
        if j < |A| && k >= |A| {
          var x := A[j];
          assert x in A;
          AddressesIn(front, x);
          var q :| 0 <= q < m && front[q].heap < x < front[q].limit;
          assert front[q] == heaps[q] && Apart(heaps[q], heaps[m]);
          assert (A + R)[k] in R;
        }
      }
    }
  }

  /** The visit order of the first k+1 segments: that of the first k, then segment k. */
  lemma AddressesNext(heaps: seq<Segment>, k: nat)
    requires k < |heaps|
    ensures Addresses(heaps[..k + 1]) == Visited(Addresses(heaps[..k]), heaps[k].heap + 1, heaps[k].limit)
  {
    AddressesSnoc(heaps, k);
    VisitedRange(Addresses(heaps[..k]), heaps[k].heap + 1, heaps[k].limit);
  }

  /** Splitting off the last element of the second part of a concatenation. */
  lemma AppendLast(xs: seq<nat>, ys: seq<nat>)
    requires ys != []
    ensures var m := |ys| - 1;
            xs + ys == (xs + ys[..m]) + [ys[m]] && ys == ys[..m] + [ys[m]]
  {
  }

  /** The slots a pass has visited: `done`, then the handles lo .. slot-1 in order. */
  function Visited(done: seq<nat>, lo: nat, slot: nat): seq<nat>
    decreases slot
  {
    if slot <= lo then done else Visited(done, lo, slot - 1) + [slot - 1]
  }

  lemma {:induction false} VisitedRange(done: seq<nat>, lo: nat, slot: nat)
    ensures Visited(done, lo, slot) == done + Range(lo, slot)
    decreases slot
  {
    if lo < slot {
      VisitedRange(done, lo, slot - 1);
      assert Range(lo, slot) == Range(lo, slot - 1) + [slot - 1];
    }
  }

  lemma {:induction false} VisitedBelow(done: seq<nat>, lo: nat, slot: nat, n: nat)
    requires AllBelow(done, n) && slot <= n
    ensures AllBelow(Visited(done, lo, slot), n)
    decreases slot
  {
    if lo < slot {
      VisitedBelow(done, lo, slot - 1, n);
    }
  }

  /** Slot j of segment k sits in the visit order right after the slots of the segments
      before it and the slots of its own segment before it. */
  lemma AddressesPosition(heaps: seq<Segment>, k: nat, j: nat)
    requires k < |heaps| && 0 < j < heaps[k].limit - heaps[k].heap
    ensures var before := Addresses(heaps[..k]);
            var p := |before| + j - 1;
            && p < |Addresses(heaps)| && Addresses(heaps)[p] == heaps[k].heap + j
            && Addresses(heaps)[..p] == Visited(before, heaps[k].heap + 1, heaps[k].heap + j)
  {
    var all, before := Addresses(heaps), Addresses(heaps[..k]);
    var lo, mid, hi := heaps[k].heap + 1, heaps[k].heap + j, heaps[k].limit;
    AddressesNext(heaps, k);
    AddressesPrefix(heaps, k + 1);
    VisitedPrefix(before, lo, mid, hi);
    var front := Visited(before, lo, hi);
    var p := |before| + j - 1;
    assert all[..|front|] == front;
    assert all[..p] == front[..p] && all[p] == front[p];
  }

  /** Where the slots up to `mid` sit among those up to `hi`. */
  lemma {:induction false} VisitedPrefix(done: seq<nat>, lo: nat, mid: nat, hi: nat)
    requires lo <= mid < hi
    ensures |Visited(done, lo, mid)| == |done| + (mid - lo) < |Visited(done, lo, hi)|
    ensures Visited(done, lo, hi)[..|Visited(done, lo, mid)|] == Visited(done, lo, mid)
    ensures Visited(done, lo, hi)[|Visited(done, lo, mid)|] == mid
    decreases hi
  {
    var v, n := Visited(done, lo, hi - 1), |Visited(done, lo, mid)|;
    if mid < hi - 1 {
      VisitedPrefix(done, lo, mid, hi - 1);
      assert (v + [hi - 1])[..n] == v[..n];
    } else {
      VisitedLength(done, lo, mid);
      assert (v + [hi - 1])[..n] == v;
    }
  }

  lemma {:induction false} VisitedLength(done: seq<nat>, lo: nat, slot: nat)
    requires lo <= slot
    ensures |Visited(done, lo, slot)| == |done| + (slot - lo)
    decreases slot
  {
    if lo < slot {
      VisitedLength(done, lo, slot - 1);
    }
  }

  /** The visit order of the segments, with what the passes need of it. */
  function HeapOrder(heaps: seq<Segment>, n: nat): (r: seq<nat>)
    requires SegmentsOk(heaps, n)
    ensures r == Addresses(heaps) && AllBelow(r, n) && NoDup(r)
  {
    AddressesBelow(heaps, n);
    AddressesNoDup(heaps, n);
    Addresses(heaps)
  }
}
