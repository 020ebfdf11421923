/** The linker's decoding loop over a script's host table, proved against the table
    decoder of module Hosts. */
module HostsLoop {
  import opened Slots
  import opened Hosts

  /** The `strlen` scan: the position of the NUL that ends the name starting at `from`. */
  method ScanName(bytes: seq<byte>, from: nat) returns (z: Option<nat>)
    requires from <= |bytes|
    ensures z == NulFrom(bytes, from)
  {
    var q := from;
    while q < |bytes| && bytes[q] != 0
      invariant from <= q <= |bytes| && NulFrom(bytes, q) == NulFrom(bytes, from)
    {
      q := q + 1;
    }
    if q == |bytes| {
      return None;
    }
    return Some(q);
  }

  /** Reads the entry at the start of `bytes`: the signed length byte, the 2-byte ID, and
      the name up to its NUL. */
  method ReadEntry(order: ByteOrder, bytes: seq<byte>) returns (r: Result<(HostEntry, nat)>)
    ensures r == DecodeEntry(order, bytes)
  {
    if |bytes| < 3 {
      return Fail(ShortEntry);
    }
    var length := Signed(bytes[0]);
    var id := Decode2(order, bytes[1], bytes[2]);
    var z := ScanName(bytes, 3);
    if z.None? {
      return Fail(Unterminated);
    }
    LoadingEntry(order, bytes, z.value);
    return Ok((HostEntry(length, id, bytes[3..z.value]), z.value + 1));
  }

  /** One turn of the decoding loop: the entry at the cursor is decoded and recorded, with
      the next fake callback; or the table is found malformed. */
  method LoadEntry(order: ByteOrder, buf: seq<byte>, fake: int, builders: array<Builder>, names: array<CallbackName>,
                   hosts: seq<Host>, p: nat, i: nat, ghost es: seq<HostEntry>)
    returns (failed: Option<DecodeError>, hosts': seq<Host>, k: nat, ghost es': seq<HostEntry>)
    requires builders.Length == names.Length && i < builders.Length && |es| == i
    requires Loaded(order, buf, fake, es, p, builders[..i], names[..i], hosts)
    requires builders.Length == Announced(order, buf)
    modifies builders, names
    ensures failed.Some? ==> HostTable(order, buf, fake) == Fail(failed.value)
    ensures failed.None? ==> |es'| == i + 1 && Loaded(order, buf, fake, es', p + k, builders[..i + 1], names[..i + 1], hosts')
  {
    var entry := ReadEntry(order, buf[p..]);
    if entry.Fail? {
      LoadingFails(order, buf, fake, es, p);
      return Some(entry.error), hosts, 0, es;
    }
    var e;
    e, k := entry.value.0, entry.value.1;
    ghost var done, named := builders[..i], names[..i];
    LoadedNext(order, buf, fake, es, p, done, named, hosts, e, k);
    builders[i] := Builder(fake + i, e.length, e.id);
    names[i] := CallbackName(fake + i, e.name);
    failed, hosts', es' := None, hosts + [HostOf(e, i, fake + i)], es + [e];
    assert builders[..i + 1] == done + [Builder(fake + |es|, e.length, e.id)];
    assert names[..i + 1] == named + [CallbackName(fake + |es|, e.name)];
  }

  /** Decodes the host table in `buf` as the linker's loop does: a cursor moves over the
      entries while the builder and callback-name arrays are filled and the fake callback
      counter is bumped once per entry. */
  method LoadHosts(order: ByteOrder, buf: seq<byte>, fake: int) returns (r: Result<Table>)
    ensures r == HostTable(order, buf, fake)
  {
    if |buf| < 2 {
      return Fail(ShortCount);
    }
    var c := Decode2(order, buf[0], buf[1]);
    var n: nat := if c < 0 then 0 else c;
    var builders := new Builder[n];
    var names := new CallbackName[n];
    var hosts: seq<Host> := [];
    var p: nat, i := 2, 0;
    ghost var es: seq<HostEntry> := [];
    LoadingStart(order, buf, n);
    while i < n
      invariant i <= n && i == |es|
      invariant Loaded(order, buf, fake, es, p, builders[..i], names[..i], hosts)
    {
      var failed, k;
      failed, hosts, k, es := LoadEntry(order, buf, fake, builders, names, hosts, p, i, es);
      if failed.Some? {
        return Fail(failed.value);
      }
      p, i := p + k, i + 1;
    }
    assert builders[..] == builders[..i];
    assert names[..] == names[..i];
    LoadingDone(order, buf, fake, es, p);
    r := Ok(Table(c, builders[..], names[..], hosts));
  }
}
