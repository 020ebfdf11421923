/** The lookups the writer uses to turn run-time pointers into names of the generated
    tables: builders, callbacks, byte code, typed-array dispatch tables, slot addresses and
    key IDs. Each is a first-match search with an explicit "not found" result. Pointers are
    opaque integers, NULL being 0. */
module Resolve {
  import opened Slots
  import opened Projection
  import Hosts

  // ------------------------------------------------------------------ builders

  /** A host function builder registered with the linker: its address, and its position in
      the generated gxBuilders table. */
  datatype LinkerBuilder = LinkerBuilder(address: int, builderIndex: int)

  /** A preloaded script: its index among the generated tables, the addresses of the
      builders and the callback names decoded from its host table, and its byte code range. */
  datatype Script = Script(scriptIndex: int, builders: seq<int>, callbackNames: seq<Hosts.CallbackName>,
                           codeBuffer: int, codeSize: int)

  /** What fxGetBuilderName resolves a builder address to: entry `builderIndex` of
      gxBuilders, entry `index` of the builders of script `scriptIndex`, or nothing (the
      "OOPS" sentinel). */
  datatype BuilderRef = GlobalBuilder(builderIndex: int) | ScriptBuilder(scriptIndex: int, index: nat) | NoBuilder

  /** fxGetBuilderName: the registered builders first, in registration order, then the
      builders of each script in script order. */
  function BuilderName(globals: seq<LinkerBuilder>, scripts: seq<Script>, which: int): (r: BuilderRef)
    ensures r.GlobalBuilder? ==>
              exists k :: 0 <= k < |globals| && globals[k].address == which && r.builderIndex == globals[k].builderIndex
                          && forall j :: 0 <= j < k ==> globals[j].address != which
    ensures (exists k :: 0 <= k < |globals| && globals[k].address == which) ==> r.GlobalBuilder?
    ensures r.ScriptBuilder? ==>
              exists k :: 0 <= k < |scripts| && scripts[k].scriptIndex == r.scriptIndex
                          && r.index < |scripts[k].builders| && scripts[k].builders[r.index] == which
                          && (forall j :: 0 <= j < r.index ==> scripts[k].builders[j] != which)
                          && forall l :: 0 <= l < k ==> which !in scripts[l].builders
    ensures r.NoBuilder? <==>
              (forall k :: 0 <= k < |globals| ==> globals[k].address != which)
              && forall k :: 0 <= k < |scripts| ==> which !in scripts[k].builders
  {
    match First(globals, (b: LinkerBuilder) => b.address == which)
    case Some(k) => GlobalBuilder(globals[k].builderIndex)
    case None =>
      match First(scripts, (sc: Script) => which in sc.builders)
      case None => NoBuilder
      case Some(k) =>
        match First(scripts[k].builders, (b: int) => b == which)
        case None => NoBuilder
        case Some(i) => ScriptBuilder(scripts[k].scriptIndex, i)
  }

  // ------------------------------------------------------------------ callbacks

  /** A callback known to the linker by address: its C name, and whether it is kept. */
  datatype LinkerCallback = LinkerCallback(name: seq<Hosts.byte>, flag: bool)

  /** What fxGetCallbackName resolves a callback to: NULL, a C name, the dead-strip
      stand-in, or nothing (the "OOPS" sentinel). */
  datatype CallbackRef = NullCallback | Named(name: seq<Hosts.byte>) | DeadStrip | NoCallback

  /** fxGetCallbackName. `known` is what the linker's lookup by address returned for
      `which`; the scripts' decoded callback names are searched only when it found nothing. */
  function CallbackNameOf(known: Option<LinkerCallback>, scripts: seq<Script>, which: int): (r: CallbackRef)
    ensures which == 0 <==> r.NullCallback?
    ensures which != 0 && known.Some? ==> r == if known.value.flag then Named(known.value.name) else DeadStrip
    ensures which != 0 && known.None? && r.Named? ==>
              exists k, i :: 0 <= k < |scripts| && 0 <= i < |scripts[k].callbackNames|
                             && scripts[k].callbackNames[i] == Hosts.CallbackName(which, r.name)
                             && (forall j :: 0 <= j < i ==> scripts[k].callbackNames[j].callback != which)
                             && forall l, j :: 0 <= l < k && 0 <= j < |scripts[l].callbackNames| ==>
                                  scripts[l].callbackNames[j].callback != which
    ensures which != 0 && known.None? ==>
              (r.NoCallback? <==>
                 forall k, i :: 0 <= k < |scripts| && 0 <= i < |scripts[k].callbackNames| ==>
                   scripts[k].callbackNames[i].callback != which)
  {
    if which == 0 then NullCallback
    else if known.Some? then
      if known.value.flag then Named(known.value.name) else DeadStrip
    else
      match First(scripts, (sc: Script) => exists e :: e in sc.callbackNames && e.callback == which)
      case None => NoCallback
      case Some(k) =>
        match First(scripts[k].callbackNames, (e: Hosts.CallbackName) => e.callback == which)
        case None => NoCallback
        case Some(i) => Named(scripts[k].callbackNames[i].name)
  }

  // ------------------------------------------------------------------ byte code

  /** What fxGetCodeName resolves a byte code pointer to: gxNoCode, an offset in the code
      of a script, or nothing (the "OOPS" sentinel). */
  datatype CodeRef = NoCode | InCode(scriptIndex: int, offset: int) | NoCodeFound

  predicate InCodeOf(sc: Script, which: int) {
    sc.codeBuffer <= which < sc.codeBuffer + sc.codeSize
  }

  /** fxGetCodeName: gxNoCode first, then the first script whose half-open code range holds
      the pointer. */
  function CodeName(noCode: int, scripts: seq<Script>, which: int): (r: CodeRef)
    ensures which == noCode <==> r.NoCode?
    ensures r.InCode? ==>
              exists k :: 0 <= k < |scripts| && InCodeOf(scripts[k], which)
                          && r == InCode(scripts[k].scriptIndex, which - scripts[k].codeBuffer)
                          && 0 <= r.offset < scripts[k].codeSize
                          && forall l :: 0 <= l < k ==> !InCodeOf(scripts[l], which)
    ensures r.NoCodeFound? <==> which != noCode && forall k :: 0 <= k < |scripts| ==> !InCodeOf(scripts[k], which)
  {
    if which == noCode then NoCode
    else
      match First(scripts, (sc: Script) => InCodeOf(sc, which))
      case None => NoCodeFound
      case Some(k) => InCode(scripts[k].scriptIndex, which - scripts[k].codeBuffer)
  }

  // ------------------------------------------------------------------ typed arrays

  /** fxGetTypeDispatchIndex and fxGetTypeAtomicsIndex: the position of an entry in a table
      of mxTypeArrayCount entries; None stands for the -1 they return on a miss. */
  function TableIndex(table: seq<int>, entry: int): (r: Option<nat>)
    ensures r.Some? ==> r.value < |table| && table[r.value] == entry
    ensures r.Some? ==> forall j :: 0 <= j < r.value ==> table[j] != entry
    ensures r.None? <==> entry !in table
  {
    First(table, (e: int) => e == entry)
  }

  // ------------------------------------------------------------------ slot addresses

  /** What fxPrintAddress prints for a slot pointer: NULL, an index of the generated heap,
      or nothing (the "OOPS" sentinel). */
  datatype Target = NullTarget | Index(index: int) | Oops

  predicate Holds(p: Projection, a: nat) {
    p.heap < a < p.limit
  }

  /** Every projection covers a non-empty range and has one entry per position in it. */
  predicate ProjectionsOk(ps: seq<Projection>) {
    forall q :: 0 <= q < |ps| ==> ps[q].heap < ps[q].limit && |ps[q].indexes| == ps[q].limit - ps[q].heap
  }

  /** fxPrintAddress: the first projection in list order whose segment strictly contains
      the slot (the header slot of a segment is not in it) gives the index. */
  function Address(ps: seq<Projection>, r: Ref): Target
    requires ProjectionsOk(ps)
  {
    if r.Null? then NullTarget
    else
      match First(ps, (p: Projection) => Holds(p, r.at))
      case None => Oops
      case Some(q) => Index(ps[q].indexes[r.at - ps[q].heap])
  }

  /** The projections the loop builds are well formed. */
  lemma ProjectionListOk(s: seq<Slot>, heaps: seq<Segment>, start: int)
    requires SegmentsOk(heaps, |s|)
    ensures ProjectionsOk(ProjectionList(s, heaps, start))
  {
    var ps := ProjectionList(s, heaps, start);
    forall q | 0 <= q < |ps| ensures ps[q].heap < ps[q].limit && |ps[q].indexes| == ps[q].limit - ps[q].heap {
      var k := |heaps| - 1 - q;
      assert ps[|heaps| - 1 - k] == SegmentProjection(s, heaps, k, start);
    }
  }

  /** The projection of segment k holds exactly the slots strictly inside it, and no other
      projection of the list holds them. */
  lemma HoldsOnlyOwn(s: seq<Slot>, heaps: seq<Segment>, start: int, k: nat, a: nat, q: nat)
    requires SegmentsOk(heaps, |s|) && k < |heaps| && heaps[k].heap <= a < heaps[k].limit
    requires q < |heaps|
    ensures var ps := ProjectionList(s, heaps, start);
            Holds(ps[q], a) <==> q == |heaps| - 1 - k && a != heaps[k].heap
  {
    var ps := ProjectionList(s, heaps, start);
    var l := |heaps| - 1 - q;
    assert ps[|heaps| - 1 - l] == SegmentProjection(s, heaps, l, start);
    if l != k {
      assert Apart(heaps[k], heaps[l]) || Apart(heaps[l], heaps[k]);
    }
  }

  lemma OnlyOwnHolds(s: seq<Slot>, heaps: seq<Segment>, start: int, k: nat, a: nat, ps: seq<Projection>)
    requires SegmentsOk(heaps, |s|) && k < |heaps| && heaps[k].heap < a < heaps[k].limit
    requires ps == ProjectionList(s, heaps, start)
    ensures |ps| == |heaps|
    ensures forall l :: 0 <= l < |ps| ==> (Holds(ps[l], a) <==> l == |heaps| - 1 - k)
  {
    forall l | 0 <= l < |heaps| ensures Holds(ps[l], a) <==> l == |heaps| - 1 - k {
      HoldsOnlyOwn(s, heaps, start, k, a, l);
    }
  }

  /** NULL prints as NULL; a pointer prints the index the first projection holding its
      slot gives it, and "OOPS" when no projection holds it. */
  lemma AddressMeaning(ps: seq<Projection>, r: Ref)
    requires ProjectionsOk(ps)
    ensures var t := Address(ps, r);
            && (r.Null? <==> t.NullTarget?)
            && (t.Index? ==>
                  exists q :: 0 <= q < |ps| && Holds(ps[q], r.at) && t.index == ps[q].indexes[r.at - ps[q].heap]
                              && forall l :: 0 <= l < q ==> !Holds(ps[l], r.at))
            && (t.Oops? <==> r.Ptr? && forall q :: 0 <= q < |ps| ==> !Holds(ps[q], r.at))
  {
  }

  /** A slot that exactly one projection holds resolves through that projection. */
  lemma AddressIsFirst(ps: seq<Projection>, a: nat, q: nat)
    requires ProjectionsOk(ps) && q < |ps| && Holds(ps[q], a)
    requires forall l :: 0 <= l < |ps| ==> (Holds(ps[l], a) <==> l == q)
    ensures Address(ps, Ptr(a)) == Index(ps[q].indexes[a - ps[q].heap])
  {
    FirstIs(ps, (p: Projection) => Holds(p, a), q);
  }

  /** A pointer to a live slot prints as the index the projection gave it, which is
      `start` plus what the slots visited before it take. */
  lemma AddressOfSlot(s: seq<Slot>, heaps: seq<Segment>, start: int, k: nat, j: nat)
    requires SegmentsOk(heaps, |s|) && k < |heaps| && 0 < j < heaps[k].limit - heaps[k].heap
    ensures ProjectionsOk(ProjectionList(s, heaps, start))
    ensures AllBelow(Addresses(heaps[..k]), |s|)
    ensures Address(ProjectionList(s, heaps, start), Ptr(heaps[k].heap + j)) ==
              Index(SegmentIndexes(s, heaps[k], Addresses(heaps[..k]), start)[j])
  {
    ProjectionListOk(s, heaps, start);
    var ps := ProjectionList(s, heaps, start);
    var a := heaps[k].heap + j;
    var q := |heaps| - 1 - k;
    OnlyOwnHolds(s, heaps, start, k, a, ps);
    assert Holds(ps[q], a);
    assert ps[q] == SegmentProjection(s, heaps, k, start);
    AddressIsFirst(ps, a, q);
    assert SegmentsOk(heaps[..k], |s|);
    AddressesBelow(heaps[..k], |s|);
  }

  /** A pointer to a segment header, which no pass treats as a slot, prints "OOPS". */
  lemma AddressOfHeader(s: seq<Slot>, heaps: seq<Segment>, start: int, k: nat)
    requires SegmentsOk(heaps, |s|) && k < |heaps|
    ensures ProjectionsOk(ProjectionList(s, heaps, start))
    ensures Address(ProjectionList(s, heaps, start), Ptr(heaps[k].heap)) == Oops
  {
    ProjectionListOk(s, heaps, start);
    var ps := ProjectionList(s, heaps, start);
    forall l | 0 <= l < |ps| ensures !Holds(ps[l], heaps[k].heap) {
      HoldsOnlyOwn(s, heaps, start, k, heaps[k].heap, l);
    }
    AddressMeaning(ps, Ptr(heaps[k].heap));
  }

  // ------------------------------------------------------------------ key IDs

  /** How fxPrintID prints an ID: XS_NO_ID, a key (named through the key table, which is
      not part of this model), or the number itself. */
  datatype PrintedId = NoIdName | KeyId(id: int) | NumberId(id: int)

  function PrintID(id: int): (r: PrintedId)
    ensures r.NoIdName? <==> id == NO_ID
    ensures r.KeyId? <==> id < 0 && id != NO_ID
    ensures r.NumberId? <==> id >= 0
    ensures !r.NoIdName? ==> r.id == id
  {
    if id == NO_ID then NoIdName
    else if id < 0 then KeyId(id)
    else NumberId(id)
  }
}
