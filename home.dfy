/** The first pass of fxPrepareHeap: shared HOME records are merged by looking back at the
    single most recent one. */
module Homes {
  import opened Slots

  /** `r` points at a HOME record that ends its chain and has no id: the only records the
      pass considers merging. */
  predicate IsLoneHome(s: seq<Slot>, r: Ref) {
    r.Ptr? && r.at < |s| && s[r.at].next == Null && s[r.at].id == NO_ID && s[r.at].kind.Home?
  }

  /** Two HOME records with equal (flag, object, module). */
  predicate SameHome(x: Slot, y: Slot) {
    && x.kind.Home? && y.kind.Home?
    && x.flag == y.flag
    && x.kind.homeObject == y.kind.homeObject
    && x.kind.homeModule == y.kind.homeModule
  }

  /** The arena and the remembered `home` pointer. */
  datatype HomeState = HomeState(slots: seq<Slot>, home: Ref)

  predicate HomeOk(st: HomeState) {
    st.home.Null? || IsLoneHome(st.slots, st.home)
  }

  /** The visit of one slot. */
  function HomeStep(st: HomeState, a: nat): (r: HomeState)
    requires a < |st.slots| && HomeOk(st)
    ensures |r.slots| == |st.slots| && HomeOk(r)
    ensures IsLoneHome(st.slots, st.slots[a].next) && st.home.Ptr?
              && SameHome(st.slots[st.home.at], st.slots[st.slots[a].next.at])
            ==> r.slots[a].next == st.home && r.home == st.home
    ensures r.slots[a].next != st.slots[a].next ==>
              IsLoneHome(st.slots, st.slots[a].next) && st.home.Ptr?
              && SameHome(st.slots[st.home.at], st.slots[st.slots[a].next.at])
    ensures r.slots != st.slots ==> r.slots == st.slots[a := st.slots[a].(next := st.home)]
    ensures r.home != st.home ==> r.home == st.slots[a].next
    ensures !IsLoneHome(st.slots, st.slots[a].next) ==> r == st
    ensures IsLoneHome(st.slots, st.slots[a].next)
            && !(st.home.Ptr? && SameHome(st.slots[st.home.at], st.slots[st.slots[a].next.at]))
            ==> r == HomeState(st.slots, st.slots[a].next)
  {
    var next := st.slots[a].next;
    if IsLoneHome(st.slots, next) then
      if st.home.Ptr? && SameHome(st.slots[st.home.at], st.slots[next.at]) then
        assert st.home.at != a;
        HomeState(st.slots[a := st.slots[a].(next := st.home)], st.home)
      else
        HomeState(st.slots, next)
    else st
  }

  /** The pass over the slots in `addrs`, in order, starting with no remembered home. */
  function HomeFold(s: seq<Slot>, addrs: seq<nat>): (r: HomeState)
    requires AllBelow(addrs, |s|)
    ensures |r.slots| == |s| && HomeOk(r)
    decreases |addrs|
  {
    if addrs == [] then HomeState(s, Null)
    else
      var m := |addrs| - 1;
      HomeStep(HomeFold(s, addrs[..m]), addrs[m])
  }

  lemma HomeFoldSnoc(s: seq<Slot>, xs: seq<nat>, a: nat)
    requires AllBelow(xs, |s|) && a < |s|
    ensures AllBelow(xs + [a], |s|)
    ensures HomeFold(s, xs + [a]) == HomeStep(HomeFold(s, xs), a)
  {
    assert (xs + [a])[..|xs|] == xs;
  }

  /** Slot `i` of `t` is that of `s`, or only its `next` moved from a lone HOME record to an
      equal lone HOME record. */
  predicate Redirected(s: seq<Slot>, t: seq<Slot>, i: nat)
    requires i < |s| == |t|
  {
    || t[i] == s[i]
    || (&& t[i] == s[i].(next := t[i].next)
        && IsLoneHome(s, s[i].next)
        && IsLoneHome(t, t[i].next)
        && SameHome(s[s[i].next.at], t[t[i].next.at]))
  }

  predicate AllRedirected(s: seq<Slot>, t: seq<Slot>) {
    |s| == |t| && forall i :: 0 <= i < |s| ==> Redirected(s, t, i)
  }

  lemma HomeStepRedirects(s: seq<Slot>, st: HomeState, a: nat)
    requires a < |st.slots| && HomeOk(st) && AllRedirected(s, st.slots)
    ensures AllRedirected(s, HomeStep(st, a).slots)
  {
    var t, u := st.slots, HomeStep(st, a).slots;
    if u != t {
      var x := t[a].next.at;
      var h := st.home.at;
      assert h != a && x != a;
      assert Redirected(s, t, x);
      assert t[x] == s[x];
      forall i | 0 <= i < |s| ensures Redirected(s, u, i) {
        assert Redirected(s, t, i);
        if i != a && u[i] != s[i] {
          assert t[i].next.at != a;
        }
      }
    }
  }

  /** Every change the pass makes is a redirection of `next` to an equal lone HOME record. */
  lemma {:induction false} HomeFoldRedirects(s: seq<Slot>, addrs: seq<nat>)
    requires AllBelow(addrs, |s|)
    ensures AllRedirected(s, HomeFold(s, addrs).slots)
    decreases |addrs|
  {
    if addrs != [] {
      var m := |addrs| - 1;
      HomeFoldRedirects(s, addrs[..m]);
      HomeStepRedirects(s, HomeFold(s, addrs[..m]), addrs[m]);
    }
  }

  /** A walk that ended before the pass still ends after it (at most one step longer). */
  lemma {:induction false} RedirectedChainEnds(s: seq<Slot>, t: seq<Slot>, r: Ref, f: nat)
    requires AllRedirected(s, t) && Chain(s, r, f).Some?
    ensures Chain(t, r, f + 1).Some?
    decreases f
  {
    if r.Ptr? {
      var a := r.at;
      assert Redirected(s, t, a);
      if t[a] == s[a] {
        RedirectedChainEnds(s, t, s[a].next, f - 1);
      } else {
        assert Chain(t, t[a].next, f).Some?;
      }
    }
  }

  /** The pass keeps the heap well formed. */
  lemma HomeFoldWf(s: seq<Slot>, addrs: seq<nat>)
    requires Wf(s) && AllBelow(addrs, |s|)
    ensures Wf(HomeFold(s, addrs).slots)
  {
    var t := HomeFold(s, addrs).slots;
    HomeFoldRedirects(s, addrs);
    forall i | 0 <= i < |t| ensures SlotOk(|t|, t[i]) && Ends(t, Ptr(i)) {
      assert Redirected(s, t, i) && SlotOk(|s|, s[i]);
      assert Ends(s, Ptr(i));
      var f: nat :| Chain(s, Ptr(i), f).Some?;
      RedirectedChainEnds(s, t, Ptr(i), f);
    }
  }

  // ------------------------------------------------------------------ the pass on any arena

  /** The HOME record remembered after the slots `xs`, read off the arena as it was before the
      pass: it moves to the lone HOME record a slot's `next` points at whenever that record
      differs from the one remembered so far, and otherwise stays. */
  function Remembered(s: seq<Slot>, xs: seq<nat>): (h: Ref)
    requires AllBelow(xs, |s|)
    ensures h.Null? || IsLoneHome(s, h)
    decreases |xs|
  {
    if xs == [] then Null
    else
      var m := |xs| - 1;
      var h := Remembered(s, xs[..m]);
      var n := s[xs[m]].next;
      if IsLoneHome(s, n) && !(h.Ptr? && SameHome(s[h.at], s[n.at])) then n else h
  }

  /** Visited after the slots `before`, slot `a` is redirected: its `next` is a lone HOME
      record equal to the one remembered. */
  predicate Merges(s: seq<Slot>, before: seq<nat>, a: nat)
    requires AllBelow(before, |s|) && a < |s|
  {
    var h := Remembered(s, before);
    IsLoneHome(s, s[a].next) && h.Ptr? && SameHome(s[h.at], s[s[a].next.at])
  }

  /** A slot that ends its chain on either side of the pass was not redirected. */
  lemma LoneUnchanged(s: seq<Slot>, t: seq<Slot>, x: nat)
    requires AllRedirected(s, t) && x < |s| && (s[x].next == Null || t[x].next == Null)
    ensures t[x] == s[x]
  {
    assert Redirected(s, t, x);
  }

  /** One more slot visited, in terms of the arena before the pass. */
  lemma HomeRemembersNext(s: seq<Slot>, xs: seq<nat>, a: nat, st: HomeState)
    requires AllBelow(xs, |s|) && a < |s| == |st.slots| && HomeOk(st)
    requires st.home == Remembered(s, xs) && AllRedirected(s, st.slots) && st.slots[a] == s[a]
    ensures AllBelow(xs + [a], |s|)
    ensures HomeStep(st, a).home == Remembered(s, xs + [a])
    ensures HomeStep(st, a).slots ==
              if Merges(s, xs, a) then st.slots[a := s[a].(next := Remembered(s, xs))] else st.slots
  {
    assert (xs + [a])[..|xs|] == xs;
    var n := s[a].next;
    var h := st.home;
    if n.Ptr? && n.at < |s| {
      if s[n.at].next == Null || st.slots[n.at].next == Null {
        LoneUnchanged(s, st.slots, n.at);
      }
      assert IsLoneHome(st.slots, n) == IsLoneHome(s, n);
    }
    if h.Ptr? {
      LoneUnchanged(s, st.slots, h.at);
    }
  }

  /** The pass over distinct slots, for any arena: the remembered record is `Remembered`;
      a visited slot is redirected to the record remembered before it exactly when its `next`
      is a lone HOME record equal to that one, and is otherwise left as it was; a slot not
      visited is left as it was. So a duplicate is merged only with the one record remembered
      last, never with an equal record seen before a different one. */
  lemma {:induction false} HomeFoldRemembers(s: seq<Slot>, xs: seq<nat>)
    requires AllBelow(xs, |s|) && NoDup(xs)
    ensures HomeFold(s, xs).home == Remembered(s, xs)
    ensures forall i :: 0 <= i < |xs| ==>
              HomeFold(s, xs).slots[xs[i]] ==
                if Merges(s, xs[..i], xs[i]) then s[xs[i]].(next := Remembered(s, xs[..i])) else s[xs[i]]
    ensures forall j :: 0 <= j < |s| && j !in xs ==> HomeFold(s, xs).slots[j] == s[j]
    decreases |xs|
  {
    if xs != [] {
      var m := |xs| - 1;
      var front, a := xs[..m], xs[m];
      assert xs == front + [a];
      HomeFoldRemembers(s, front);
      HomeFoldRedirects(s, front);
      var st := HomeFold(s, front);
      assert a !in front by {
        forall j | 0 <= j < m ensures front[j] != a { assert xs[j] != xs[m]; }
      }
      HomeRemembersNext(s, front, a, st);
      HomeFoldSnoc(s, front, a);
      var r := HomeFold(s, xs);
      forall i | 0 <= i < |xs|
        ensures r.slots[xs[i]] ==
                  if Merges(s, xs[..i], xs[i]) then s[xs[i]].(next := Remembered(s, xs[..i])) else s[xs[i]]
      {
        if i < m {
          assert xs[..i] == front[..i] && xs[i] == front[i] && xs[i] != a;
        } else {
          assert xs[..i] == front;
        }
      }
    }
  }

  /** The body of the first loop of fxPrepareHeap, for the slot at `slot`. */
  method VisitHome(mem: array<Slot>, slot: nat, home: Ref) returns (home': Ref)
    requires slot < mem.Length && HomeOk(HomeState(mem[..], home))
    modifies mem
    ensures HomeState(mem[..], home') == HomeStep(HomeState(old(mem[..]), home), slot)
  {
    home' := home;
    var next := mem[slot].next;
    if next.Ptr? && next.at < mem.Length && mem[next.at].next == Null && mem[next.at].id == NO_ID
       && mem[next.at].kind.Home? {
      if home.Ptr? && mem[home.at].kind.Home? && mem[home.at].flag == mem[next.at].flag
         && mem[home.at].kind.homeObject == mem[next.at].kind.homeObject
         && mem[home.at].kind.homeModule == mem[next.at].kind.homeModule {
        mem[slot] := mem[slot].(next := home);
      } else {
        home' := next;
      }
    }
  }

  /** fxPrepareHeap's first loop over the heap segments. */
  method MergeHomes(mem: array<Slot>, heaps: seq<Segment>)
    requires SegmentsOk(heaps, mem.Length)
    modifies mem
    ensures mem[..] == HomeFold(old(mem[..]), HeapOrder(heaps, mem.Length)).slots
  {
    ghost var s0 := mem[..];
    var home: Ref := Null;
    var k := 0;
    while k < |heaps|
      invariant 0 <= k <= |heaps|
      invariant AllBelow(Addresses(heaps[..k]), |s0|)
      invariant HomeFold(s0, Addresses(heaps[..k])) == HomeState(mem[..], home)
    {
      ghost var st := HomeState(mem[..], home);
      home := MergeSegment(mem, heaps[k], home);
      HomeFoldNext(s0, heaps, k, st, HomeState(mem[..], home));
      k := k + 1;
    }
    assert heaps[..|heaps|] == heaps;
  }

  /** The pass after one more segment. */
  lemma HomeFoldNext(s: seq<Slot>, heaps: seq<Segment>, k: nat, st: HomeState, st': HomeState)
    requires SegmentsOk(heaps, |s|) && k < |heaps| && AllBelow(Addresses(heaps[..k]), |s|)
    requires HomeFold(s, Addresses(heaps[..k])) == st
    requires st' == HomeRun(st, heaps[k].heap + 1, heaps[k].limit)
    ensures AllBelow(Addresses(heaps[..k + 1]), |s|)
    ensures HomeFold(s, Addresses(heaps[..k + 1])) == st'
  {
    AddressesNext(heaps, k);
    HomeRunFold(s, Addresses(heaps[..k]), heaps[k].heap + 1, heaps[k].limit);
  }

  /** The pass over the slots lo .. hi-1 of one segment, from the state `st`. */
  function HomeRun(st: HomeState, lo: nat, hi: nat): (r: HomeState)
    requires HomeOk(st) && hi <= |st.slots|
    ensures |r.slots| == |st.slots| && HomeOk(r)
    decreases hi
  {
    if hi <= lo then st else HomeStep(HomeRun(st, lo, hi - 1), hi - 1)
  }

  /** Running over a segment continues the pass over the slots visited before it. */
  lemma {:induction false} HomeRunFold(s: seq<Slot>, done: seq<nat>, lo: nat, hi: nat)
    requires AllBelow(done, |s|) && hi <= |s|
    ensures AllBelow(Visited(done, lo, hi), |s|)
    ensures HomeFold(s, Visited(done, lo, hi)) == HomeRun(HomeFold(s, done), lo, hi)
    decreases hi
  {
    if lo < hi {
      HomeRunFold(s, done, lo, hi - 1);
      HomeFoldSnoc(s, Visited(done, lo, hi - 1), hi - 1);
    }
  }

  /** The first loop of fxPrepareHeap over one segment. */
  method MergeSegment(mem: array<Slot>, seg: Segment, home: Ref) returns (home': Ref)
    requires seg.heap < seg.limit <= mem.Length && HomeOk(HomeState(mem[..], home))
    modifies mem
    ensures HomeState(mem[..], home') == HomeRun(HomeState(old(mem[..]), home), seg.heap + 1, seg.limit)
  {
    ghost var st := HomeState(mem[..], home);
    home' := home;
    var slot := seg.heap + 1;
    while slot < seg.limit
      invariant seg.heap + 1 <= slot <= seg.limit
      invariant HomeRun(st, seg.heap + 1, slot) == HomeState(mem[..], home')
    {
      home' := VisitHome(mem, slot, home');
      slot := slot + 1;
    }
  }

  /** An arena with four slots whose `next` point at the HOME records 5, 6, 7 and 8: 5, 6
      and 8 are equal, 7 differs. */
  function HomeExample(): (s: seq<Slot>)
    ensures |s| == 9
  {
    var h := Slot(Null, NO_ID, {}, Home(Ptr(20), Ptr(21)));
    [Slot(Null, 0, {}, Other(Undefined)),
     Slot(Ptr(5), 0, {}, Closure(Ptr(0))), Slot(Ptr(6), 0, {}, Closure(Ptr(0))),
     Slot(Ptr(7), 0, {}, Closure(Ptr(0))), Slot(Ptr(8), 0, {}, Closure(Ptr(0))),
     h, h, Slot(Null, NO_ID, {}, Home(Ptr(22), Ptr(21))), h]
  }

  /** The example with slot 2 redirected to the equal record 5. */
  function HomeExampleMerged(): (s: seq<Slot>)
    ensures |s| == 9
  {
    var s := HomeExample();
    s[2 := s[2].(next := Ptr(5))]
  }

  lemma HomeExampleStep1()
    ensures HomeStep(HomeState(HomeExample(), Null), 1) == HomeState(HomeExample(), Ptr(5))
  {
  }

  lemma HomeExampleStep2()
    ensures HomeStep(HomeState(HomeExample(), Ptr(5)), 2) == HomeState(HomeExampleMerged(), Ptr(5))
  {
    var s := HomeExample();
    assert IsLoneHome(s, Ptr(6)) && SameHome(s[5], s[6]);
  }

  lemma HomeExampleStep3()
    ensures HomeStep(HomeState(HomeExampleMerged(), Ptr(5)), 3) == HomeState(HomeExampleMerged(), Ptr(7))
  {
    var s := HomeExampleMerged();
    assert IsLoneHome(s, Ptr(7)) && !SameHome(s[5], s[7]);
  }

  lemma HomeExampleStep4()
    ensures HomeStep(HomeState(HomeExampleMerged(), Ptr(7)), 4) == HomeState(HomeExampleMerged(), Ptr(8))
  {
    var s := HomeExampleMerged();
    assert IsLoneHome(s, Ptr(8)) && !SameHome(s[7], s[8]);
  }

  /** The records themselves end their chains, so visiting them changes nothing. */
  lemma HomeExampleRecord(a: nat)
    requires 5 <= a < 9
    ensures HomeStep(HomeState(HomeExampleMerged(), Ptr(8)), a) == HomeState(HomeExampleMerged(), Ptr(8))
  {
    assert HomeExampleMerged()[a].next == Null;
  }

  /** Two adjacent duplicates are merged; a third equal record separated from them by a
      different one is not, since only the last home is remembered. */
  lemma OnlyAdjacentDuplicatesMerge()
    ensures var s := HomeExample();
            var t := HomeFold(s, Range(1, 9)).slots;
            t[2].next == Ptr(5) && t[4].next == Ptr(8) && t[1] == s[1] && t[3] == s[3]
  {
    var s := HomeExample();
    var xs := Range(1, 9);
    assert xs == [1, 2, 3, 4, 5, 6, 7, 8];
    assert xs[..0] == [];
    HomeExampleStep1();
    HomeFoldSnoc(s, xs[..0], 1);
    assert xs[..0] + [1] == xs[..1];
    HomeExampleStep2();
    HomeFoldSnoc(s, xs[..1], 2);
    assert xs[..1] + [2] == xs[..2];
    HomeExampleStep3();
    HomeFoldSnoc(s, xs[..2], 3);
    assert xs[..2] + [3] == xs[..3];
    HomeExampleStep4();
    HomeFoldSnoc(s, xs[..3], 4);
    assert xs[..3] + [4] == xs[..4];
    var last := HomeState(HomeExampleMerged(), Ptr(8));
    assert HomeFold(s, xs[..4]) == last;
    HomeExampleTail(xs, 4);
    HomeExampleTail(xs, 5);
    HomeExampleTail(xs, 6);
    HomeExampleTail(xs, 7);
    assert xs[..8] == xs;
    var m := HomeExampleMerged();
    assert m[1] == s[1] && m[3] == s[3] && m[2].next == Ptr(5) && m[4].next == Ptr(8);
  }

  lemma HomeExampleTail(xs: seq<nat>, i: nat)
    requires xs == [1, 2, 3, 4, 5, 6, 7, 8] && 4 <= i < 8
    requires HomeFold(HomeExample(), xs[..i]) == HomeState(HomeExampleMerged(), Ptr(8))
    ensures HomeFold(HomeExample(), xs[..i + 1]) == HomeState(HomeExampleMerged(), Ptr(8))
  {
    HomeFoldSnoc(HomeExample(), xs[..i], xs[i]);
    assert xs[..i] + [xs[i]] == xs[..i + 1];
    HomeExampleRecord(xs[i]);
  }
}
